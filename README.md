# newsvioso admin core in Dafny

newsvioso is a news CMS. Its admin panel is a Laravel API with a Vue/Pinia
client. This project models the parts of it that decide things:

- **Slug helper.** The multilingual slug generator: normalise, lower-case,
  turn spaces into separators, delete listed symbols, collapse separator
  runs, trim. It also covers the counter loop that makes a slug unique and
  the script detector.
- **Article lifecycle.** Articles move through draft, scheduled and
  published. The model covers:
  - the controller's validation and the `published_at` rules of store,
    update, publish and schedule;
  - the model's `creating` and `updating` hooks, applied in the order
    Eloquent runs them;
  - soft delete and bulk delete;
  - the query scopes and the featured-image URL accessor.
- **Roles.** The role hierarchy (super admin 3, editor 2, reporter 1), the
  user's role checks, the permission middleware (401, then 403, then the
  next handler) and the password reset code with its 15-minute lifetime.
- **Admin, category and tag management.** Field rules, the uniqueness of
  e-mail and title that ignores the record's own row, the `is_active`
  defaults, the password-only-if-filled rule, the self-delete guard, the
  role list, and the index status filters.
- **Pinia stores.** How each API answer updates the client state:
  - list replacement and removal, prepending, and total counters;
  - filter merge and reset, and query-parameter pruning;
  - the session store's token, user, avatar URL and permission check. The
    client's level table is proved to agree with the server's.

The module structure follows the source:

| Dafny file | Module | What it models |
|---|---|---|
| `slug_helper.dfy` | `SlugHelper` | the slug helper |
| `user_role.dfy` | `UserRole` | the role constants |
| `user_model.dfy` | `UserModel` | the user model |
| `permission_middleware.dfy` | `PermissionMiddleware` | the permission middleware |
| `article_model.dfy` | `ArticleModel` | the article model |
| `article_controller.dfy` | `ArticleController` | the article controller |
| `admin_controller.dfy` | `AdminController` | the admin controller |
| `titled_resource.dfy` | `TitledResource` | the category and tag controllers |
| `listing_filters.dfy` | `ListingFilters` | the index filters |
| `article_store.dfy` | `ArticleStore` | the article store |
| `collection_store.dfy` | `CollectionStore` | the admin, category and tag stores |
| `auth_store.dfy` | `AuthStore` | the session store |

Three modules are shared helpers:

- `Common`: Option, the request input, controller responses and PHP
  truthiness.
- `Decimal`: decimal numerals.
- `ClientData`: JavaScript scalars and list operations.

How state is modelled:

- Where the source updates state in place, the model is a class whose
  methods change its fields. These are the Eloquent record, the tables, the
  user's reset code and the stores.
- Where the source computes a value, the model is a function.
- A database table is a map from id to row.
- Clocks are an integer `now` parameter.
- Library calls are function-valued parameters:
  - Unicode normalisation, `strip_tags`, `html_entity_decode` and
    `mb_strtolower` in the slug helper's `TextLibrary`;
  - Laravel's `Str::slug` as `slugOf`;
  - `Hash::make` as `hash`;
  - `random_int` as a `draw` argument.
- Every server answer a store receives is an input. `None` stands for a
  failed request.

### Where the code departs from its own comments (the model follows the code)

- The slug helper's space list carries the comment "Non-breaking space" on
  `"\u00A0"` (app/Helpers/SlugHelper.php:78), and similar comments on
  nineteen more entries (:81-97). In a double-quoted PHP string, `\u00A0` is
  six characters, not a Unicode escape. A real no-break space is therefore
  kept in the slug (`SlugHelper.NoBreakSpaceKept`).
- The doc comments of `generateUniqueSlug` and `generateUniqueSlugExcluding`
  promise "a unique multilingual slug" (app/Models/Article.php:83 and :91).
  Both return Laravel's `Str::slug` of the title, not the slug helper's
  result, and check nothing for uniqueness. Any collision surfaces from the
  unique index as a failed write (500).
- The comment "Set published_at when status changes to published"
  (app/Models/Article.php:75) heads a hook branch that only fires while
  `published_at` is empty. Through the controllers it never fires
  (`ArticleController.UpdatePublishedAt`):
  - on update, the controller itself sets `published_at` to now whenever the
    status moves into published from another status, even when it was set
    before (app/Http/Controllers/Api/ArticleController.php:333-335);
  - `publish` overwrites `published_at` unconditionally.

### Other consequences of the code as written

**Slug helper**

- `generate` is not idempotent for every input. `"0!"` gives `"0"`, and
  `"0"` gives `""`, because `empty("0")` holds
  (`SlugHelper.GenerateTwiceZero`).
- `generate` normalises to NFC before it deletes symbols, so a deleted
  symbol can leave characters that compose on a second pass. `"e!\u0301"`
  keeps the `!` between the letter and the accent through NFC, loses it
  afterwards, and gives `"e\u0301"`; a second call composes that to `"é"`.
  Generating twice gives the first slug again only for a slug other than
  `"0"` that normalisation and lower-casing leave unchanged
  (`SlugHelper.GenerateTwice`).
- Japanese is detected from Hiragana only (app/Helpers/SlugHelper.php:255).
  Katakana-only text is reported as Latin (`SlugHelper.KatakanaIsLatin`).

**Articles**

- A soft-deleted article keeps its slug reserved. The unique index covers
  trashed rows too.
- `updated_by` is restamped only when the update changes something.
  Eloquent skips the `updating` hook for a clean record
  (`ArticleController.UpdateStamps`).
- A scheduled article whose date has passed is in no scope, neither
  scheduled nor published. Nothing in the code publishes it
  (`ArticleModel.OverdueScheduledInNoScope`).
- The `exists:articles,id` rule of bulk delete also accepts trashed ids.
  Deleting such an id again changes nothing.
- An empty `is_active` arrives as null and passes `between:0,1`. The
  controllers copy it into the NOT NULL column, so store and update answer
  500 with no write (`ArticleController.ArticleTable.Store`,
  `ArticleController.ArticleTable.Update`).

**Admins**

- `is_active` defaults to 1 on store but to 0 on update when the key is
  absent (`AdminController.IsActiveDefaultsDiffer`). Categories and tags
  default to 1 on both.
- A password of only spaces, tabs or line breaks counts as not filled,
  because the framework trims it for `required` and `filled`, although its
  middleware leaves passwords untrimmed. Store refuses it; update skips
  its rules and keeps the stored hash (`AdminController.BlankPassword`).

**Session store**

- The client's level table agrees with `UserRole::getHierarchyLevel` on
  every role string except the names of `Object.prototype` properties. A
  role such as `"constructor"` passes no level on the client, not even 0
  (`AuthStore.InheritedKeyRefusedEverywhere`).
- For an avatar path `"0"`, the client builds `"/storage/0"`, where PHP's
  truthiness would give null (`AuthStore.AvatarUrlMatchesServerRule`). The
  server's own `avatar_url` for an account is `Storage::url` of any truthy
  path, with no `"http"` case (app/Http/Controllers/Api/AdminController.php:63).
  Storage is not part of this model, so the comparison is with the article
  accessor's rule, which tests the same truthiness.

## Model

| member | source | states |
|---|---|---|
| SlugHelper.ReplaceSpacesAndSymbols | app/Helpers/SlugHelper.php:68-122 | the two str_replace loops give the space pass then the symbol pass; the result holds no listed symbol and no ASCII space other than the separator |
| SlugHelper.ReplaceInTurn | app/Helpers/SlugHelper.php:101-103 | one foreach of str_replace calls (proved by its loop invariant) equals applying the search strings in list order |
| SlugHelper.SpacesReplacedConfined | app/Helpers/SlugHelper.php:71-103 | after the space pass the only space, tab, LF, CR, NUL or VT left is the separator |
| SlugHelper.SymbolsRemovedIsDeletion | app/Helpers/SlugHelper.php:105-119 | the symbol pass deletes exactly the listed characters and nothing else |
| SlugHelper.CollapseProperties | app/Helpers/SlugHelper.php:131-135 | collapsing leaves no two separators in a row, keeps the end characters and all other characters in order, adds nothing, and is the identity on text without runs |
| SlugHelper.TrimProperties | app/Helpers/SlugHelper.php:36 | trim returns a slice with only separators cut from each side and no separator at either end |
| SlugHelper.CleanupProperties | app/Helpers/SlugHelper.php:33-36 | collapse then trim: no separator at either end, none doubled, no new character, the same non-separator characters in order |
| SlugHelper.Generate | app/Helpers/SlugHelper.php:17-39 | generate returns "" for PHP-empty input ("" and "0") and otherwise a well-formed slug: no separator at either end, none doubled, no listed symbol, no ASCII space |
| SlugHelper.SlugIsWellFormed | app/Helpers/SlugHelper.php:17-39 | every slug generate can return is well formed, whatever the text library does |
| SlugHelper.SlugIdempotent | app/Helpers/SlugHelper.php:17-39 | a well-formed slug other than "0" that the text library leaves alone slugs to itself |
| SlugHelper.GenerateTwice | app/Helpers/SlugHelper.php:17-39 | generating twice gives the first slug again when that slug is not "0" and normalisation and lower-casing leave it unchanged |
| SlugHelper.GenerateTwiceZero | app/Helpers/SlugHelper.php:19-21 | "0!" slugs to "0" and "0" slugs to "": the exception to idempotence |
| SlugHelper.ZeroBangSlug | app/Helpers/SlugHelper.php:17-39 | "0!" slugs to "0" |
| SlugHelper.NoBreakSpaceKept | app/Helpers/SlugHelper.php:78-97 | a real U+00A0 is not in the space list and survives into the slug |
| SlugHelper.SlugOfPlainText | app/Helpers/SlugHelper.php:26-37 | on text of kept characters and ASCII spaces, generate only maps spaces to the separator, collapses and trims (no transliteration) |
| SlugHelper.PlainTextKeepsCharacters | app/Helpers/SlugHelper.php:26-37 | such text keeps every character other than spaces and the separator, in order |
| SlugHelper.PlainTextKeepsCharacter | app/Helpers/SlugHelper.php:26-37 | on such text any character other than an ASCII space and the separator reaches the slug |
| SlugHelper.SymbolsOnlyDeleted | app/Helpers/SlugHelper.php:105-119 | on text without spaces, separator or backslash, generate only deletes the listed symbols and inserts no separator |
| SlugHelper.Taken | app/Helpers/SlugHelper.php:175-184 | the slugs slugExists finds: held by a row other than the excluded id, where a null or 0 id excludes nothing |
| SlugHelper.SlugExists | app/Helpers/SlugHelper.php:175-184 | some row other than the excluded id holds the slug in the column; a null or 0 id excludes nothing (the values it finds are SlugHelper.Taken) |
| SlugHelper.CandidatesDistinct | app/Helpers/SlugHelper.php:158-161 | base, base-1, base-2, … are pairwise different |
| SlugHelper.ProbedSize | app/Helpers/SlugHelper.php:158-161 | the first n candidates are n different strings |
| SlugHelper.FirstFreeUnique | app/Helpers/SlugHelper.php:147-164 | there is only one least free candidate |
| SlugHelper.SecondCallGetsSuffixOne | app/Helpers/SlugHelper.php:156-161 | when the base is taken and base-1 is free, the result is base-1 |
| SlugHelper.FirstFreeCandidate | app/Helpers/SlugHelper.php:155-163 | the probing loop ends, since each successful probe finds a different value of the finite column, and returns the least candidate slugExists does not find |
| SlugHelper.GenerateUnique | app/Helpers/SlugHelper.php:147-164 | the loop terminates and returns the least free candidate of the base ("untitled" when generate gives an empty() slug), which slugExists does not find |
| SlugHelper.DetectLanguage | app/Helpers/SlugHelper.php:236-268 | the language of the first of the seven ranges, in test order, that the text has a character in, Latin if none |
| SlugHelper.HasNonLatinCharacters | app/Helpers/SlugHelper.php:225-228 | some character lies above 0x7F; every detected script implies it (SlugHelper.DetectedScriptIsNonLatin) |
| SlugHelper.DetectedScriptIsNonLatin | app/Helpers/SlugHelper.php:225-268 | any language other than Latin is only reported for text hasNonLatinCharacters accepts |
| SlugHelper.ArabicTakesPriority | app/Helpers/SlugHelper.php:239-241 | text with an Arabic letter is Arabic, whatever else it holds |
| SlugHelper.KatakanaIsLatin | app/Helpers/SlugHelper.php:255-257 | Katakana-only text is non-ASCII yet reported as Latin |
| UserRole.All | app/Constants/UserRole.php:16-23 | three distinct roles |
| UserRole.Exists | app/Constants/UserRole.php:47-50 | strict membership in all(); exactly the strings with a display name other than "Unknown Role" and a positive level |
| UserRole.DisplayName | app/Constants/UserRole.php:31-39 | "Unknown Role" exactly for strings that are not roles |
| UserRole.HierarchyLevel | app/Constants/UserRole.php:58-66 | a level at most 3, positive exactly for the roles, and the role at position 3 - level of all() |
| UserRole.HasPermissionLevel | app/Constants/UserRole.php:75-78 | the role's level is at least the required one; monotone in the level (UserRole.PermissionMonotone) |
| UserRole.AllByLevel | app/Constants/UserRole.php:16-23 | all() lists the roles by level 3, 2, 1 |
| UserRole.PermissionMonotone | app/Constants/UserRole.php:75-78 | passing a level implies passing every lower one |
| UserRole.UnknownRoleRefused | app/Constants/UserRole.php:47-78 | a string that is not a role passes no level from 1 up |
| UserRole.PassingRoles | app/Constants/UserRole.php:58-78 | for a level n in 1..3, exactly the first 4 - n roles of all() pass it |
| UserRole.DisplayNamesDistinct | app/Constants/UserRole.php:31-39 | different roles have different display names |
| UserModel.ResetCodeFor | app/Models/User.php:122 | the code is six decimal digits whose value is the drawn number |
| UserModel.ResetCodesDistinct | app/Models/User.php:122 | different draws give different codes |
| UserModel.User.RoleDisplayName | app/Models/User.php:110-113 | "Unknown Role" exactly when none of the three role checks holds |
| UserModel.User.HasRole | app/Models/User.php:59-62 | strict equality of the stored role with the argument |
| UserModel.User.IsSuperAdmin | app/Models/User.php:69-72 | hasRole of super_admin; exclusive with the other checks (UserModel.RoleChecksExclusive) |
| UserModel.User.IsEditor | app/Models/User.php:79-82 | hasRole of editor |
| UserModel.User.IsReporter | app/Models/User.php:89-92 | hasRole of reporter |
| UserModel.User.HasPermissionLevel | app/Models/User.php:100-103 | the stored role passes UserRole's hasPermissionLevel |
| UserModel.User.VerifyResetCode | app/Models/User.php:136-141 | the stored code equals the argument and its expiry is set and strictly later than now |
| UserModel.User.GenerateResetCode | app/Models/User.php:120-128 | stores the code with expiry now + 15 minutes; afterwards verification accepts exactly that code before the expiry |
| UserModel.User.ClearResetCode | app/Models/User.php:148-154 | both fields null; verification then fails for every code at every time |
| UserModel.RoleChecksExclusive | app/Models/User.php:59-92 | at most one role check holds, and one does exactly when the role exists |
| UserModel.SuperAdminPassesEveryLevel | app/Models/User.php:100-103 | a super admin passes every level up to 3 |
| PermissionMiddleware.Handle | app/Http/Middleware/CheckPermissionLevel.php:17-30 | 401 "Unauthenticated." without a user, 403 "Insufficient permissions." below the level, otherwise the next handler's response unchanged |
| PermissionMiddleware.UnknownRoleForbidden | app/Http/Middleware/CheckPermissionLevel.php:25-27 | a user with an unknown role gets 403 for every level from 1 up |
| PermissionMiddleware.AdmittedBelow | app/Http/Middleware/CheckPermissionLevel.php:25-29 | a request admitted at a level is admitted at every lower level |
| PermissionMiddleware.UnauthenticatedFirst | app/Http/Middleware/CheckPermissionLevel.php:21-23 | without a user the answer is 401 whatever the level |
| ArticleModel.ParseStatus | database/migrations/2025_09_24_111721_create_articles_table.php:20 | only the three enum names parse, each to its status |
| ArticleModel.ParseStatusName | database/migrations/2025_09_24_111721_create_articles_table.php:20 | status names and statuses correspond one to one |
| ArticleModel.CreatingHook | app/Models/Article.php:60-66 | slug derived from the title only when empty(); created_by and updated_by are the actor; nothing else changes |
| ArticleModel.UpdatingHook | app/Models/Article.php:68-80 | updated_by is the actor; the slug changes only when the title is dirty and the status is not published; published_at is set to now only when the status is dirty, now published and published_at is null, and never overwritten; nothing else changes |
| ArticleModel.PublishedKeepsSlug | app/Models/Article.php:72-74 | a published article keeps its slug when retitled |
| ArticleModel.UpdatingHookStable | app/Models/Article.php:68-80 | running the hook again with the same dirty status and clean title changes nothing more |
| ArticleModel.ArticleInstance.Creating | app/Models/Article.php:60-66 | the record's attributes become the creating hook's result |
| ArticleModel.ArticleInstance.Updating | app/Models/Article.php:68-80 | the record's attributes become the updating hook's result against the original |
| ArticleModel.ArticleInstance.Fill | app/Http/Controllers/Api/ArticleController.php:337 | update() fills the attributes with the given values; the original stays, so dirtiness is judged against the loaded row |
| ArticleModel.ArticleInstance.SaveExisting | app/Models/Article.php:68-80 | save runs the updating hook only for a dirty record |
| ArticleModel.SavedAttributes | app/Models/Article.php:68-80 | a clean record is saved unchanged; a dirty one carries updated_by = actor |
| ArticleModel.GenerateUniqueSlug | app/Models/Article.php:86-89 | the result is slugOf(title), with no uniqueness check |
| ArticleModel.GenerateUniqueSlugExcluding | app/Models/Article.php:94-97 | the excluded id is ignored: the result equals generateUniqueSlug |
| ArticleModel.UniqueSlugIsNotUnique | app/Models/Article.php:86-97 | two titles with the same Str::slug get the same "unique" slug |
| ArticleModel.FeaturedImageUrl | app/Models/Article.php:134-143 | null exactly when the path is empty(), the path itself when it starts with "http", else "/storage/" + path |
| ArticleModel.FeaturedImageUrlShape | app/Models/Article.php:134-143 | every URL is absolute or under /storage/ and ends with the stored path |
| ArticleModel.InPublishedScope | app/Models/Article.php:148-156 | status published, is_active 1, and published_at null or not after now |
| ArticleModel.InDraftScope | app/Models/Article.php:161-164 | status draft |
| ArticleModel.InScheduledScope | app/Models/Article.php:169-173 | status scheduled with scheduled_at strictly after now |
| ArticleModel.ScopesDisjoint | app/Models/Article.php:148-173 | no article is in two of the published, draft and scheduled scopes |
| ArticleModel.OverdueScheduledInNoScope | app/Models/Article.php:148-173 | a scheduled article whose date has passed is in none of the three scopes |
| ArticleController.ValidationErrors | app/Http/Controllers/Api/ArticleController.php:117-131 | per field, the exact condition for an error: title required and at most 255, content required, status in the enum, scheduled_at (when sent) after now, is_active 0 or 1 when given (a null passes); the verdicts of the string, date and other rules not evaluated here pass through |
| ArticleController.RequestCheck | app/Http/Controllers/Api/ArticleController.php:133-148 | a rejection is never empty, and acceptance implies the validator passed |
| ArticleController.AcceptedRequest | app/Http/Controllers/Api/ArticleController.php:125-148 | an accepted request has a known status, and a scheduled one has a future date |
| ArticleController.ScheduledNeedsDate | app/Http/Controllers/Api/ArticleController.php:142-148 | status scheduled without a date is refused, with the error under scheduled_at when the validator passed |
| ArticleController.UnknownStatusRefused | app/Http/Controllers/Api/ArticleController.php:125 | a status outside the enum is refused with an error under status |
| ArticleController.NewArticle | app/Http/Controllers/Api/ArticleController.php:151-168 | the request's slug is never copied; published_at is set exactly for status published; is_active is the given value or 1 |
| ArticleController.CreatedArticle | app/Http/Controllers/Api/ArticleController.php:151-170 | the row store() inserts: the filled attributes after the creating hook (properties in ArticleController.CreatedArticleFields) |
| ArticleController.CreatedArticleFields | app/Http/Controllers/Api/ArticleController.php:151-170 | a created article has slugOf(title), both stamps the actor, published_at now exactly when published, and is_active 1 when absent |
| ArticleController.UpdateFill | app/Http/Controllers/Api/ArticleController.php:313-337 | the fill keeps id, slug, deleted_at and the stamps; it sets the request's fields |
| ArticleController.UpdatedArticle | app/Http/Controllers/Api/ArticleController.php:313-337 | the row update() saves: the fill, then the updating hook for a dirty record (properties in UpdatePublishedAt, UpdateSlug and UpdateStamps) |
| ArticleController.UpdatePublishedAt | app/Http/Controllers/Api/ArticleController.php:333-335 | after update, published_at is now exactly when the status moved into published, otherwise unchanged; the hook adds nothing |
| ArticleController.UpdateSlug | app/Http/Controllers/Api/ArticleController.php:337 | after update, the slug is rederived exactly when the title changed and the new status is not published |
| ArticleController.UpdateStamps | app/Http/Controllers/Api/ArticleController.php:337 | updated_by is the actor when anything changed; a no-op update leaves the row as it was |
| ArticleController.BulkDeleteErrors | app/Http/Controllers/Api/ArticleController.php:422-433 | no error exactly when the list is non-empty and every id is a row |
| ArticleController.BulkDeleted | app/Http/Controllers/Api/ArticleController.php:436 | the listed live rows are soft-deleted at now; nothing else changes |
| ArticleController.BulkDeletedEffect | app/Http/Controllers/Api/ArticleController.php:436 | no listed id stays live; unlisted and already trashed rows are untouched |
| ArticleController.ArticleTable.Store | app/Http/Controllers/Api/ArticleController.php:115-226 | 422 with the errors and no write when refused; 500 with no write for a null is_active (NOT NULL column); else the created article is inserted, or 500 with no write when its slug is held by any row, live or trashed; unique slugs kept |
| ArticleController.ArticleTable.Update | app/Http/Controllers/Api/ArticleController.php:278-393 | 404 for a missing or trashed row; 422 with no write when refused; 500 with no write for a null is_active; else the updated row, or 500 with no write on a slug collision |
| ArticleController.ArticleTable.Destroy | app/Http/Controllers/Api/ArticleController.php:398-415 | 404 for a missing or trashed row; else only deleted_at is set |
| ArticleController.ArticleTable.BulkDelete | app/Http/Controllers/Api/ArticleController.php:420-450 | all or nothing: any unknown id gives 422 and deletes nothing |
| ArticleController.ArticleTable.Publish | app/Http/Controllers/Api/ArticleController.php:599-620 | status published and published_at now, overwriting any earlier value; slug kept |
| ArticleController.ArticleTable.Schedule | app/Http/Controllers/Api/ArticleController.php:625-658 | a date the date rule accepts and strictly in the future is required (else 422, no write); status scheduled with that date; published_at kept |
| ArticleController.SlugsUniqueUpdate | database/migrations/2025_09_24_111721_create_articles_table.php:17 | replacing a row by one with the same slug keeps slugs unique |
| ArticleController.UpdateKeepsValid | app/Http/Controllers/Api/ArticleController.php:337 | an update whose slug is free keeps the table's invariant |
| ListingFilters.ActiveFilter | app/Http/Controllers/Api/AdminController.php:39-41 | no filter for a missing or "" status; is_active true exactly for "active" |
| ListingFilters.RoleFilter | app/Http/Controllers/Api/AdminController.php:34-36 | a role filter exactly for a non-empty() role, with that value |
| ListingFilters.ActiveListingsPartition | app/Http/Controllers/Api/CategoryController.php:27-29 | every row is in exactly one of the "active" and any other listing, and in the unfiltered one |
| AdminController.ValidationErrors | app/Http/Controllers/Api/AdminController.php:87-94 | per field, the exact error condition: name and e-mail required and at most 255; the e-mail syntax verdict kept and the address unused by other accounts; on store a password that is filled (not blank after PHP's trim), at least 8 long and confirmed, on update those rules only for a filled one; the role one of the three; is_active 0 or 1 when sent |
| AdminController.OtherErrorsKept | app/Http/Controllers/Api/AdminController.php:87-94 | every verdict of a rule not evaluated here, the e-mail syntax rule included, reaches the errors; the evaluated rules add keys of their own fields only |
| AdminController.NewAccount | app/Http/Controllers/Api/AdminController.php:104-118 | is_active defaults to 1; the hash is of the given password |
| AdminController.UpdatedAccount | app/Http/Controllers/Api/AdminController.php:198-220 | is_active defaults to 0; the hash changes exactly for a filled password, one not blank after trim; the avatar only for an upload |
| AdminController.IsActiveDefaultsDiffer | app/Http/Controllers/Api/AdminController.php:110 | without is_active, store activates and update deactivates |
| AdminController.UpdateWithoutPasswordKeepsHash | app/Http/Controllers/Api/AdminController.php:205-207 | an update whose password is absent, empty or blank after trim keeps the stored hash, whatever the hash function |
| AdminController.BlankPassword | app/Http/Controllers/Api/AdminController.php:184-207 | a password of trim characters only is refused by store's required rule (line 90), passes update's nullable rules, and leaves the stored hash |
| AdminController.EightSpacesBlank | app/Http/Controllers/Api/AdminController.php:90 | eight spaces are long enough for min:8 yet blank, so required refuses them |
| AdminController.Roles | app/Http/Controllers/Api/AdminController.php:291-305 | one option per role in all() order, labelled with its display name |
| AdminController.RolesAreTheValidRoles | app/Http/Controllers/Api/AdminController.php:293-298 | the offered values are exactly the valid roles, with distinct known labels |
| AdminController.Listed | app/Http/Controllers/Api/AdminController.php:34-41 | the index lists an account exactly when its role matches a non-empty role parameter (or none is given) and its is_active passes the status filter |
| AdminController.AdminTable.Store | app/Http/Controllers/Api/AdminController.php:85-149 | 422 with the errors and no write when a rule fails, a malformed or taken address and a blank password included; else the new account inserted; unique e-mails and valid roles kept |
| AdminController.AdminTable.Update | app/Http/Controllers/Api/AdminController.php:179-251 | 404 for a missing account; 422 with no write when a rule fails, a malformed or taken address included; else the updated account, with the hash kept for an absent or blank password |
| AdminController.AdminTable.Destroy | app/Http/Controllers/Api/AdminController.php:256-286 | 403 and no delete for the acting admin's own account; any other account is removed |
| TitledResource.ValidationErrors | app/Http/Controllers/Api/CategoryController.php:78-81 | the title is required, at most 255 and unused by any other row; is_active, when sent, is 0 or 1, and null is refused; the string rule's verdict passes through |
| TitledResource.Written | app/Http/Controllers/Api/TagController.php:92-95 | only title and is_active are written, is_active defaulting to 1; never called with a null is_active |
| TitledResource.NullActiveRefused | app/Http/Controllers/Api/CategoryController.php:80 | a request that passes validation has no null is_active |
| TitledResource.OwnTitleAllowed | app/Http/Controllers/Api/CategoryController.php:146 | keeping its own title never trips the uniqueness rule on update |
| TitledResource.OtherTitleRefused | app/Http/Controllers/Api/TagController.php:79 | a title held by another row is refused |
| TitledResource.TitledTable.Store | app/Http/Controllers/Api/CategoryController.php:76-118 | 422 with no write, else the new row inserted; unique titles kept |
| TitledResource.TitledTable.Update | app/Http/Controllers/Api/TagController.php:143-185 | 404 for a missing row, 422 with no write, else title and is_active rewritten |
| ClientData.Pruned | resources/js/stores/admin.js:40-50 | exactly the keys whose value is not "", null (and undefined where dropped) survive, with their values |
| ClientData.PruneParams | resources/js/stores/article.js:45-56 | the key-deleting loop yields the pruned parameters |
| ClientData.FindIndex | resources/js/stores/article.js:182-185 | the first index with the id, or -1 exactly when none has it |
| ClientData.ReplacedFirst | resources/js/stores/article.js:182-185 | the list with its first entry carrying the id replaced, unchanged when none does (ClientData.ReplacedFirstEffect) |
| ClientData.RemoveId | resources/js/stores/article.js:216 | no longer than the input, every entry of the result was in it, and none carries the id |
| ClientData.ReplacedFirstEffect | resources/js/stores/article.js:182-185 | only the first matching entry is replaced; length and all other entries kept; a missing id changes nothing |
| ClientData.RemoveIdEffect | resources/js/stores/article.js:216 | every entry without the id survives, and exactly the matching ones are gone |
| ClientData.RemoveIdConcat | resources/js/stores/article.js:216 | filtering keeps the order of the remaining entries |
| ClientData.CountIdConcat | resources/js/stores/article.js:216 | the entries carrying the id in a concatenation are those of its parts |
| ClientData.RemoveIdKeeps | resources/js/stores/article.js:216 | an entry without the id is kept by the filter |
| ClientData.RemoveIds | resources/js/stores/article.js:244 | no entry whose id is listed remains |
| ClientData.RemoveIdsEffect | resources/js/stores/article.js:244 | every entry whose id is not listed remains |
| ClientData.RemoveSingleId | resources/js/stores/article.js:216-244 | bulk delete of a one-id list removes what deleting that id removes |
| ClientData.Merge | resources/js/stores/article.js:307-309 | incoming keys overwrite, other keys kept |
| ArticleStore.WithStatus | resources/js/stores/article.js:34-36 | exactly the entries with that status |
| ArticleStore.StatusGettersDisjoint | resources/js/stores/article.js:34-36 | the three status getters never share an entry |
| ArticleStore.ArticleListStore.FetchParams | resources/js/stores/article.js:45-56 | page and per_page, with the filters over them, pruned of "", null and undefined |
| ArticleStore.ArticleListStore.PublishedArticles | resources/js/stores/article.js:34 | the entries whose status is "published" (disjoint from the other two, ArticleStore.StatusGettersDisjoint) |
| ArticleStore.ArticleListStore.DraftArticles | resources/js/stores/article.js:35 | the entries whose status is "draft" |
| ArticleStore.ArticleListStore.ScheduledArticles | resources/js/stores/article.js:36 | the entries whose status is "scheduled" |
| ArticleStore.ArticleListStore.FetchArticles | resources/js/stores/article.js:60-67 | a successful answer replaces the list and the pagination |
| ArticleStore.ArticleListStore.CreateArticle | resources/js/stores/article.js:128-130 | on success the answer becomes the open article; the list, filters, total and the page fields are kept |
| ArticleStore.ArticleListStore.UpdateArticle | resources/js/stores/article.js:177-185 | the answer becomes the open article and replaces the first entry with the id; filters, total and the page fields are kept |
| ArticleStore.ArticleListStore.DeleteArticle | resources/js/stores/article.js:216 | every entry with the id leaves the list; the open article, filters, total and the page fields are kept |
| ArticleStore.ArticleListStore.BulkDeleteArticles | resources/js/stores/article.js:244 | exactly the listed ids leave the list; the open article, filters, total and the page fields are kept |
| ArticleStore.ArticleListStore.SetFilters | resources/js/stores/article.js:307-309 | shallow merge over the filters; every other field is kept |
| ArticleStore.ArticleListStore.SetPage | resources/js/stores/article.js:311-313 | the current page is the argument; everything else is kept |
| ArticleStore.ArticleListStore.ArticleTransitioned | resources/js/stores/article.js:328-380 | publish and schedule replace the matching entry, and the open article when its id matches; filters, total and the page fields are kept |
| CollectionStore.ListStore.FetchParams | resources/js/stores/category.js:40-50 | params over filters, pruned of "" and null, undefined kept |
| CollectionStore.ListStore.Created | resources/js/stores/admin.js:120-124 | the new record first and total + 1 |
| CollectionStore.ListStore.Updated | resources/js/stores/tag.js:128-138 | the first entry with the id replaced, and the open record when its id matches |
| CollectionStore.ListStore.Deleted | resources/js/stores/admin.js:196-204 | entries with the id removed, total - 1, the open record closed when its id matches |
| CollectionStore.ListStore.SetFilter | resources/js/stores/admin.js:236-238 | only the given key changes |
| CollectionStore.ListStore.SetFilters | resources/js/stores/admin.js:240-242 | shallow merge over the filters; list, open record and total kept |
| CollectionStore.ListStore.ClearCurrent | resources/js/stores/admin.js:258-260 | the open record is null; everything else is kept |
| CollectionStore.ListStore.ClearFilters | resources/js/stores/category.js:191-200 | the default filter record is restored |
| CollectionStore.AdminStoreClearFilters | resources/js/stores/admin.js:244-252 | the admin store starts from its filter record and clearFilters restores exactly that record whatever filters were set |
| CollectionStore.TitledStoreClearFilters | resources/js/stores/category.js:191-200 | the category and tag stores restore their own record, which has no role key |
| CollectionStore.DeleteKeepsCount | resources/js/stores/tag.js:160-168 | deleting a record that appears once keeps total equal to the list length |
| CollectionStore.CreateThenDelete | resources/js/stores/admin.js:120-204 | creating a record and then deleting it restores the list |
| AuthStore.ClientLevel | resources/js/stores/auth.js:144-152 | 0..3, positive only for a valid role, and no level for an inherited property name |
| AuthStore.ClientLevelMatchesServer | resources/js/stores/auth.js:144-152 | for any other role string the client's level and permission equal the server's |
| AuthStore.InheritedKeyRefusedEverywhere | resources/js/stores/auth.js:150-151 | an inherited property name passes no level on the client, though it passes level 0 on the server |
| AuthStore.NoUserLevel | resources/js/stores/auth.js:150-151 | signed out, exactly the levels up to 0 pass |
| AuthStore.NoUserHasRoleUndefined | resources/js/stores/auth.js:140-142 | with no user, hasRole holds exactly for undefined |
| AuthStore.WithAvatarUrl | resources/js/stores/auth.js:28-32 | avatar_url is added for a non-empty avatar and the user is otherwise unchanged |
| AuthStore.IsAuthenticated | resources/js/stores/auth.js:13 | a non-empty token and a user |
| AuthStore.HasRole | resources/js/stores/auth.js:140-142 | strict equality of the user's role, undefined with no user, with the argument |
| AuthStore.HasPermissionLevel | resources/js/stores/auth.js:144-152 | the client's level of the role, 0 for none, is at least the required one; equal to the server's rule off the inherited names (AuthStore.ClientLevelMatchesServer) |
| AuthStore.AvatarUrl | resources/js/stores/auth.js:29-31 | an avatar starting with "http" is kept; any other is "/storage/" followed by the avatar |
| AuthStore.AvatarUrlMatchesServerRule | resources/js/stores/auth.js:70-74 | the client's avatar URL equals the article accessor's rule except for the path "0", where the client builds "/storage/0" and the server's truthiness test (also the one of AdminController.php:63) gives null |
| AuthStore.AuthSession.Login | resources/js/stores/auth.js:19-43 | token and user stored on success, nothing changed on failure |
| AuthStore.AuthSession.ClearAuth | resources/js/stores/auth.js:127-133 | token and user null, initialised; signed out afterwards |
| AuthStore.AuthSession.Logout | resources/js/stores/auth.js:45-55 | ends signed out whatever the server answered |
| AuthStore.AuthSession.FetchUser | resources/js/stores/auth.js:57-84 | without a token only isInitialized changes; signed in afterwards exactly when a token was present and the request succeeded |
| AuthStore.AuthSession.InitAuth | resources/js/stores/auth.js:110-125 | always initialised; without a stored token nothing else changes; with one, the fetched user (with its avatar URL) is stored, or token and user are cleared when the fetch fails |
| AuthStore.AuthSession.UpdateProfile | resources/js/stores/auth.js:170-177 | the answer's user, with its avatar URL, replaces the stored one |

## Left out

- Unicode normalisation, `strip_tags`, `html_entity_decode`, `mb_strtolower`, `Str::slug`, `Hash::make` and `random_int` are library calls. They are parameters here, and the model assumes only what the code relies on.
- `generateArabic`, `generateBangla` and `generateHindi` only call `generate`, so they have no members of their own.
- The slug helper's separator is a single character. Only `-` is ever passed.
- File storage is not modelled: featured images, content images, `processContentImages` and avatar uploads and deletion. An upload is the stored path it produces.
- JSON response shaping is not modelled, nor relation loading, search with `LIKE` and collation, the date-range filters, `orderBy` on client-chosen columns or pagination. These are query and presentation plumbing.
- Uniqueness of titles, e-mails and slugs is exact string equality. The database collation may also treat case variants as equal.
- The `tags()->attach` on store and `tags()->sync` on update (app/Http/Controllers/Api/ArticleController.php:173-175, :340-342) are not modelled. They write the article-tag pivot table, which nothing else here reads.
- The race between checking a slug and inserting it is concurrency. A collision appears only as the 500 of a failed write.
- `created_at`/`updated_at` timestamps are not modelled. They are set by the framework and nothing here reads them.
- AdminController.ValidationErrors: update's `between:0,1` on `is_active` has no numeric rule beside it, so Laravel measures the string length and accepts any one-character value such as "5", which is then saved. The model reads it as the integer range 0..1 and refuses "5". The users table's migration is not part of this model, so an empty or null `is_active` for an account is not modelled either.
- ArticleController.ValidationErrors: `is_active` under `boolean`/`between:0,1` is a 0..1 integer range. Laravel's string-length reading of `between` for text input is not modelled.
- Absent nullable detail fields in an article request (excerpt, category, meta fields) are treated as sent. The rules the model does not evaluate arrive as error keys. These cover `category_id` existence, image type and size, and tag ids.
- Category and tag destroy are not modelled: app/Models/Category.php and app/Models/Tag.php are not part of this model, so how their rows are deleted is unknown.
- The index, show and preview actions and the dashboard are read-only queries. Only their status and role filters are modelled.
- The client's transport is not modelled: axios, `FormData`, `localStorage`, default headers and async ordering. Every answer is an input. Loading flags and error messages are not modelled.
- JavaScript numbers are integers here. NaN and fractions are not modelled, except that an inherited-property lookup in the level table compares as NaN.
- The routes, the navigation guard, the theme store and the UI are not modelled. They are configuration and DOM code.
- The forgot-password and reset-password endpoints and changePassword are only HTTP calls from the store. They do not change store state.
