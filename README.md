# Rush Uploads back end — a verified model of its record rules

Rush Uploads is an Express and Prisma (MongoDB) service for sharing uploaded
files by link or by e-mail. Around its S3/Wasabi and Prisma calls sit small
rules over stored records, and this project models those rules in Dafny:

- the download ledger of a file: distinct fingerprints, their timestamps and a counter;
- link and mail sharing: the recipient list, the expiry, the owner's storage
  write, the placeholder accounts of recipients, and the public URL of each file;
- the file table operations: batch create, the owner and shared listings, the
  conditional update;
- the admin handlers: the monetization setting, user and file edits, rewards,
  soft deletes, and the dashboard figures;
- the ad view and click gate, and the ad statistics;
- the request guard placed before authenticated routes;
- the start-up environment schema;
- the one-off data-repair and clean-up scripts.

The database is a `Store.Database` object. Its sequence fields (files, users,
settings, ad views, ad clicks, links, mails) are the collections. Its `Valid()`
states the schema's unique indexes: ids, user e-mails and setting keys.

Each handler that writes is a method that modifies only the collections it
touches. Its postcondition ties the new state to a specification function of
the old one, and lemmas beside that function state what the handler promises.
The read-only handlers, the guard and the environment schema are functions
with lemmas.

Whatever the service gets from outside is a parameter of the model:
- the clock: `now`, or a `nat -> Time` clock for a loop that reads the time once per record;
- token decoding: `verify`;
- URL signing: `sign`;
- the request-body validators: `schema`, `body`;
- the tier constraints: `allowed`;
- zod's e-mail and URL tests: `isEmail`, `isUrl`;
- the handler configuration `ShareConfig` (bucket, region, client base URL); in the program it is `Distribution.HandlerConfig` of the parsed environment, where bucket and region are both the text "undefined";
- the ids the database issues.

Modules, one per concern:
- `Common`: options, uniqueness, filtering, fresh ids;
- `Strings`: JavaScript `trim`, `split`, `join`;
- `Records`: the stored entities and their lookups;
- `Store`: the database;
- `UserService`: the two user writes the file controller relies on;
- `FileService`: src/services/file.ts;
- `Distribution`: link and mail sharing, listings, the owner's delete;
- `Download`: the download ledger;
- `Kpis`: the dashboard figures;
- `Monetization`: the monetization setting;
- `Admin`: user and file edits, rewards, admin deletes;
- `Ads`: ad tracking and statistics;
- `Auth`: the request guard;
- `Env`: the environment schema;
- `FileRepair`: scripts/update-file.ts;
- `TimestampRepair`: both fix-settings scripts and fix-all-collections;
- `Cleanup`: final-data-clean and emergency-clean.

## Model

| member | source | states |
|---|---|---|
| Records.FindFile | src/controllers/file.ts:451-453 | the position found holds the file with that id; none is found exactly when no file has the id |
| Records.FindUser | src/middlewares/auth.ts:46-50 | the position found holds the user with that id; none is found exactly when no user has it |
| Records.FindUserByEmail | src/controllers/file.ts:262-273 | the position found holds the user with that e-mail; none is found exactly when no user has it |
| Records.FindSetting | src/controllers/admin.ts:238-240 | the position found holds the setting with that key; none is found exactly when no setting has it |
| Strings.Trim | src/controllers/file.ts:239 | the result has no leading or trailing JavaScript white space |
| Strings.TrimPadded | src/controllers/file.ts:237-239 | trimming a trimmed text padded with white space on both sides gives that text back |
| Strings.TrimIdempotent | src/controllers/admin.ts:327 | trimming twice is trimming once |
| Strings.TrimEmptyIff | src/controllers/admin.ts:319 | a text trims to the empty string exactly when it is all white space |
| Strings.TrimWithin | src/controllers/file.ts:239 | every character of the trimmed text occurs in the original |
| Strings.Split | src/middlewares/auth.ts:30 | `split` gives one more piece than there are separators, and no piece holds the separator |
| Strings.JoinSplit | src/controllers/file.ts:237-238 | joining the pieces of a split with the same separator gives the text back |
| Strings.SplitJoin | src/controllers/file.ts:237-238 | splitting a join of separator-free pieces gives the pieces back, in order |
| Strings.SplitNoSep | src/middlewares/auth.ts:30 | a text without the separator splits into itself alone |
| Distribution.ParseRecipients | src/controllers/file.ts:237-239 | the address list has one entry more than the string has commas; each entry is trimmed and holds no comma |
| Distribution.ParsePaddedRecipients | src/controllers/file.ts:237-239 | addresses joined by commas with any white space around them parse back to exactly those addresses, in order |
| Distribution.PublicUrl | src/controllers/file.ts:215-218 | the URL is the bucket-and-region prefix followed by exactly the object key |
| Distribution.HandlerUrlsUndefined | src/controllers/file.ts:217 | after any successful start-up parse, bucket and region are the text "undefined", so every public URL is the undefined-bucket prefix followed by the key, and the preview base is `CLIENT_BASE_URL` as set |
| Distribution.PublicUrlInjective | src/controllers/file.ts:215-218 | in one bucket and region, two URLs are equal exactly when their keys are |
| Distribution.WithUrls | src/controllers/file.ts:215-218 | one entry per file, in order, each the file itself with the URL of its name |
| Distribution.WithUrlsMembers | src/controllers/file.ts:300-303 | an entry is in the augmented list exactly when its file is in the list and its URL is that file's |
| Distribution.UserSharedFiles | src/controllers/file.ts:326-344 | exactly the caller's own non-deleted files are returned, each with its URL |
| Distribution.UserReceivedFiles | src/controllers/file.ts:346-366 | the files returned are those of the shared-files query, each with its URL |
| Distribution.GetLink | src/controllers/file.ts:368-395 | "Link Not Found" exactly when no link has the id; otherwise that link and exactly its files, each with its URL |
| Distribution.DeleteHidesFile | src/controllers/file.ts:423-430 | after a successful owner delete, the owner's listing no longer holds that file and gains nothing |
| Distribution.DeleteNeedsOwner | src/controllers/file.ts:423-426 | a file the caller does not own cannot be deleted through this handler |
| Distribution.DeleteFile | src/controllers/file.ts:419-439 | the delete succeeds exactly when the caller owns a file with that id; then only that file becomes `isDeleted` and is returned; otherwise nothing changes |
| Distribution.UsageWriteKeepsUsage | src/controllers/file.ts:174-204 | the owner's usage becomes `request.user.usedStorage`, the value read when the request was authenticated, plus the size of an empty file list; every other user is untouched; when that value is still the stored one the table is unchanged |
| Distribution.CreateBatchAndWriteUsage | src/controllers/file.ts:190-205 | both writes happen exactly when the owner exists: the batch is appended with fresh ids and the usage is written; otherwise neither happens, an empty batch included, because the rejected usage write fails the `Promise.all` |
| Distribution.GenerateFileLink | src/controllers/file.ts:168-233 | a rejected body or failed constraint check writes nothing; on success the batch expires at now plus days times 86,400,000 ms, is not shared with anyone, the link records the title, message and the batch's ids, and every returned file carries its URL |
| Distribution.ExpiresInMs | src/controllers/file.ts:179 | the lifetime of a batch: the number of days times 86,400,000 ms (a definition; the GenerateFileLink and SendFileMail rows state the resulting expiry) |
| Distribution.RecordLink | src/controllers/file.ts:190-220 | the batch, the usage write and exactly one new link holding the batch's ids, or no write at all when the owner does not exist |
| Distribution.ProvisionRecipients | src/controllers/file.ts:262-273 | one account per address in order: an existing account is reused unchanged, an unknown address gets a new account with `totalStorage` the free tier's quota, `usedStorage` 0 and a fresh id |
| Distribution.ProvisionStep | src/controllers/file.ts:263-272 | one upsert extends the provisioning invariant by one address |
| Distribution.ProvisionedIds | src/controllers/file.ts:262-281 | the ids the upserts return are exactly the accounts of the recipient addresses, and they all exist |
| Distribution.ProvisionedAccounts | src/controllers/file.ts:262-273 | after all upserts, the user table is the old one plus placeholder accounts for the unknown addresses only |
| Distribution.ProvisionedOwner | src/controllers/file.ts:262-290 | adding accounts with fresh ids leaves where the owner's account is found unchanged |
| Distribution.SendFileMail | src/controllers/file.ts:235-324 | the mail is sent exactly when the body passes, the constraints admit it and the owner exists; every recipient is provisioned; on success each new file is shared with every recipient, the mail lists the parsed addresses and the batch's ids, and the notice names the sender, the joined addresses and the mail's preview link |
| Distribution.MailNotice | src/controllers/file.ts:305-311 | the notice names the requester as sender and carries the mail's message; its title is never empty: the mail's own title, or "File Shared" when that is empty |
| Distribution.ShareByMail | src/controllers/file.ts:262-320 | once the body is accepted: the recipients are provisioned, then the batch, usage write and mail record are made exactly when the owner exists |
| Distribution.ProvisionForMail | src/controllers/file.ts:262-281 | the accounts of the recipients are found or created, and the ids handed to the batch are exactly theirs |
| Distribution.RecordMail | src/controllers/file.ts:275-320 | the batch shared with the recipients, the usage write and exactly one new mail, or no write at all when the owner does not exist |
| UserService.UpsertUserByEmail | src/controllers/file.ts:264-271 | an existing account with that e-mail is returned unchanged; otherwise an account with `totalStorage` the free tier's quota, `usedStorage` 0 and a fresh id is appended |
| UserService.SetUsedStorage | src/controllers/file.ts:199-204 | the write succeeds exactly when the user exists and then changes only that user's `usedStorage` |
| FileService.FreshIds | src/services/file.ts:202-252 | as many ids as records, pairwise distinct and none already in use |
| FileService.CreateFiles | src/services/file.ts:191-255 | an empty batch succeeds and writes nothing, whoever the owner is; a non-empty one is all or nothing: it fails exactly when the owner or a shared-with user does not exist, leaving the table unchanged, and otherwise appends one record per input in input order, copying the name fields and size, each with the same expiry, owner and shared users and a fresh id |
| FileService.NewFile | src/services/file.ts:203-221 | one created record: the input's names, type and size, the batch's expiry, owner and shared users, and the counters, flags and ledger at the defaults listed under Left out (a definition; the CreateFiles row states the batch) |
| FileService.FilesByUserId | src/services/file.ts:101-107 | exactly the owner's non-deleted files, of the given type when one is given |
| FileService.SharedWith | src/services/file.ts:145-154 | exactly the files whose shared users include the user |
| FileService.SharedFilesByUserId | src/services/file.ts:141-189 | the user's whole shared list when the user exists and every shared file is non-deleted and of the given type; otherwise nothing |
| FileService.SharedAllOrNothing | src/services/file.ts:145-154 | one deleted or wrongly-typed shared file empties the whole result |
| FileService.BatchListedForOwner | src/services/file.ts:203-220 | after a batch is created, the owner's listing is the old listing followed by the batch |
| FileService.BatchSharedWithRecipients | src/services/file.ts:211-215 | after a batch is created, each recipient's shared list is the old one followed by the batch |
| FileService.ApplyUpdate | src/services/file.ts:265-271 | an update never changes a file's id, owner, type or key |
| FileService.UpdateFiles | src/services/file.ts:265-271 | the update fails exactly when no record matches the id and the given owner and type; otherwise only the matching record changes, and ids stay unique |
| FileService.UpdateByIdIsPointUpdate | src/services/file.ts:265-271 | an update by an existing id rewrites that one record in place |
| FileService.UpdateFileById | src/services/file.ts:257-303 | the table becomes the updated table and the record is returned exactly when one matches; otherwise nothing changes |
| Download.Fingerprint | src/controllers/file.ts:459 | the dedup key: the client address and the user agent, each `undefined` when missing, joined by a dash (a definition; FingerprintSeparates states what it distinguishes) |
| Download.FingerprintSeparates | src/controllers/file.ts:459 | for addresses without a dash, two requests share a fingerprint exactly when they share both the address text and the user-agent text |
| Download.RecordDownload | src/controllers/file.ts:459-474 | a known fingerprint changes nothing; a new one is appended to `downloadedBy`, one timestamp is appended to `downloadedAt`, and `downloads` rises by one; no other field changes |
| Download.RecordDownloadKeepsLedger | src/controllers/file.ts:463-474 | the two ledger lists keep equal length and `downloadedBy` stays free of duplicates |
| Download.RepeatDownloadIsFree | src/controllers/file.ts:461-463 | a repeated request with the same fingerprint, at any time, changes nothing |
| Download.RecordDownloadElements | src/controllers/file.ts:463-474 | the ledger gains the fingerprint, and the counter rises by one exactly when it was new |
| Download.ReplayCountsDistinct | src/controllers/file.ts:459-475 | over any series of requests the ledger stays consistent, gains exactly their fingerprints, and `downloads` grows by the number of distinct new fingerprints |
| Download.DownloadEffect | src/controllers/file.ts:447-475 | only the file with the requested id is updated, by the ledger rule; every other file is untouched |
| Download.DownloadEffectKeepsLedgers | src/controllers/file.ts:451-475 | a download keeps every file's ledger consistent |
| Download.DownloadFile | src/controllers/file.ts:441-490 | a missing id gives 400 and an unknown id 404, both without a write; otherwise the ledger rule is applied and the signed URL of the file's key is returned, whether or not the download was new and whether or not the file is soft-deleted |
| Kpis.EligibleFiles | src/controllers/admin.ts:14-20 | exactly the non-deleted files with downloads above zero |
| Kpis.DownloadsTotal | src/controllers/admin.ts:14-22 | null exactly when no file is eligible; otherwise the sum of the eligible files' downloads, at least their number |
| Kpis.SumAtLeastCount | src/controllers/admin.ts:15-18 | when every download count is positive, the total is at least the number of files |
| Kpis.AppendIneligibleKeepsTotal | src/controllers/admin.ts:14-22 | a deleted or never-downloaded file does not change the total |
| Kpis.Insert | src/controllers/admin.ts:57 | inserting into a list sorted by descending downloads keeps it sorted and adds exactly that file |
| Kpis.SortByDownloads | src/controllers/admin.ts:57 | a permutation in non-increasing download order |
| Kpis.TopDownloads | src/controllers/admin.ts:23-59 | at most ten files, in non-increasing download order, each an eligible file of the table; empty exactly when no file is eligible |
| Kpis.TopDownloadsSpec | src/controllers/admin.ts:23-59 | at most ten eligible files, as many as there are up to ten, in non-increasing download order, each with at least the downloads of every eligible file left out |
| Kpis.TakeSorted | src/controllers/admin.ts:57-58 | a prefix of a sorted list is sorted, drawn from the list, and dominates the rest |
| Kpis.GetKpis | src/controllers/admin.ts:8-80 | the figures agree with each other: the download total is null exactly when the top list is empty, and the top list never holds more than ten files nor more than the live-file count |
| Kpis.KpiBounds | src/controllers/admin.ts:10-29 | the user and file counts never exceed the table sizes, and there are no more eligible files than live ones |
| Kpis.EmptyKpis | src/controllers/admin.ts:10-59 | empty tables give zero users, zero files, a null download total and an empty top list |
| Kpis.UserCountStep | src/controllers/admin.ts:12 | adding a user raises the user count by one when the user is not deleted and leaves it as it was otherwise |
| Kpis.FileCountStep | src/controllers/admin.ts:13 | adding a file raises the file count by one when the file is not deleted and leaves it as it was otherwise |
| Kpis.AppendEligibleAddsDownloads | src/controllers/admin.ts:14-22 | adding an eligible file makes the total non-null and adds its downloads to it, starting from 0 when the total was null |
| Kpis.EligibleWithinLive | src/controllers/admin.ts:13-19 | there are no more downloaded live files than live files |
| Kpis.AllFiles | src/controllers/admin.ts:99-133 | exactly the non-deleted files, as many as the dashboard's file count |
| Monetization.CurrentSettings | src/controllers/admin.ts:215-223 | without any `monetization` setting, the defaults `OFF`, "", ""; with unique setting keys, the value of the one `monetization` setting when it holds one, and the defaults when it is null |
| Monetization.Merge | src/controllers/admin.ts:249-253 | a request that gives every field is taken as it is; an empty request keeps the base; the merged `value` is missing only when both the request and the base lack it |
| Monetization.MergeCompose | src/controllers/admin.ts:249-253 | two updates in turn equal one update whose fields are the later request's where it gives them and the earlier request's otherwise |
| Monetization.MergeIdempotent | src/controllers/admin.ts:249-253 | merging the same request again changes nothing, and an empty request keeps the base |
| Monetization.AcceptedValue | src/controllers/admin.ts:256 | the merged value is accepted when its `value` is `ON` or `OFF` (a definition; the UpdateMonetizationSettings row states its use) |
| Monetization.Upsert | src/controllers/admin.ts:261-268 | the upsert adds at most one setting and leaves every other setting in its place and unchanged; with unique keys, every `monetization` setting it leaves holds the merged value |
| Monetization.UpsertThenRead | src/controllers/admin.ts:261-268 | after the upsert exactly one `monetization` setting exists, it reads back as the merged value, and no other setting changes |
| Monetization.UpsertIdempotent | src/controllers/admin.ts:261-268 | repeating the same upsert leaves the settings as the first one left them |
| Monetization.UpdateMonetizationSettings | src/controllers/admin.ts:233-276 | the update succeeds exactly when the merged value is `ON` or `OFF`; a rejected one writes nothing; a successful one upserts the merged value, creating the setting with a fresh id when it was missing |
| Admin.StripSensitive | src/controllers/admin.ts:285 | the patch written carries no password and no refresh token |
| Admin.StrippedPatchKeepsCredentials | src/controllers/admin.ts:284-290 | whatever the request carries, the stored password, refresh token and id survive the update |
| Admin.ApplyPatch | src/controllers/admin.ts:287-290 | the update never changes the id; an empty patch changes nothing; a patch without credentials keeps the stored password and refresh token |
| Admin.RedactHidesCredentials | src/controllers/admin.ts:292-295 | users that differ only in their credentials give the same reply |
| Admin.RedactDeterminesUser | src/controllers/admin.ts:292-295 | conversely, two users get the same reply only when they differ at most in their password and refresh token: every other field shows in the reply |
| Admin.PatchUsers | src/controllers/admin.ts:287-290 | an unknown id fails; a patch whose e-mail collides with another user fails; otherwise only that user changes, and no credential changes anywhere |
| Admin.UpdateUser | src/controllers/admin.ts:279-310 | an unknown user gives 404; a failed write changes nothing; on success the table is patched and the reply is the redacted stored user |
| Admin.NameMissing | src/controllers/admin.ts:319 | the name counts as missing exactly when it is absent or all white space |
| Admin.UpdateFile | src/controllers/admin.ts:313-336 | a missing or blank name gives 400 without a write; otherwise the stored name becomes the trimmed, non-empty name and no other field or file changes |
| Admin.ClaimRewards | src/controllers/admin.ts:178-200 | the update succeeds exactly when the file exists, and then its `claims` rises by the requested amount and nothing else changes |
| Admin.ClaimsAccumulate | src/controllers/admin.ts:184-187 | two claims add up |
| Admin.DeleteFileById | src/controllers/admin.ts:163-176 | the file with that id, whoever owns it, becomes `isDeleted` and nothing else changes; an unknown id changes nothing |
| Admin.DeleteUser | src/controllers/admin.ts:148-161 | the user with that id becomes `isDeleted` and nothing else changes; an unknown id changes nothing |
| Ads.TrackAdView | src/controllers/ads.ts:6-28 | a view is appended exactly when the `monetization` setting exists and its value is `ON`, with a fresh id; otherwise nothing is appended; clicks are never touched |
| Ads.TrackAdClick | src/controllers/ads.ts:32-53 | a click is appended exactly when monetization is `ON`, with a fresh id; otherwise nothing is appended; views are never touched |
| Ads.MonetizationOn | src/controllers/ads.ts:8-15 | off when there is no `monetization` setting; with unique setting keys, on exactly when that setting's value holds `value` `ON` |
| Ads.LinkedCount | src/controllers/ads.ts:69-82 | the count is zero exactly when no event is linked to the setting, and the number of events exactly when every event is |
| Ads.GetAdStats | src/controllers/ads.ts:56-90 | zero views and clicks without a setting or without events; with unique setting keys, the numbers of views and clicks linked to the `monetization` setting; never more than the collections hold |
| Ads.LinkedCountAppend | src/controllers/ads.ts:70-81 | a new event counts once for its own setting and not for any other |
| Ads.TrackedViewCounts | src/controllers/ads.ts:18-22 | a tracked view raises the view statistic by one and leaves the clicks alone |
| Ads.TrackedClickCounts | src/controllers/ads.ts:43-47 | a tracked click raises the click statistic by one and leaves the views alone |
| Ads.UnlinkedEventsIgnored | src/controllers/ads.ts:70-81 | events linked to another setting do not count |
| Auth.Guard | src/middlewares/auth.ts:24-50 | a request that passes hands on a stored user whose id is the one in the decoded token of the header's second word |
| Auth.SecondWord | src/middlewares/auth.ts:30 | there is no token exactly when the header holds no space, and a token never holds a space |
| Auth.TokenErrorsReported | src/middlewares/auth.ts:55-72 | once a token is present, an expired one is refused as "Token Expired!" and any other undecodable one as "Invalid Token!", whatever the route asks for and whatever the user table holds |
| Auth.GuardPassIff | src/middlewares/auth.ts:24-54 | the guard passes exactly when the header is present, the second word is a non-empty token that decodes, the role and verification claims pass, and the stored user exists; it then hands on that stored user |
| Auth.NoHeaderUnauthorized | src/middlewares/auth.ts:24-28 | a missing or empty header is Unauthorized before anything else is looked at |
| Auth.TokenIsSecondWord | src/middlewares/auth.ts:30 | the token is the second word whatever the first word says |
| Auth.OneWordHeaderHasNoToken | src/middlewares/auth.ts:30-34 | a header without a space has no token |
| Auth.RoleCheckedFirst | src/middlewares/auth.ts:38-44 | a token for another role is Forbidden whatever its verification claim and whatever the user table holds |
| Auth.ClaimsNotStoredUser | src/middlewares/auth.ts:36-50 | the stored user's own role and verification flag do not change whether the guard passes |
| Auth.VerifyRequest | src/middlewares/auth.ts:21-77 | on success `request.user` is the stored user and `next` is called exactly once; on any failure neither happens |
| Env.JsNumber | src/lib/env.ts:7-14 | a coerced number is never negative, and a blank value reads as 0 |
| Env.Restrict | src/lib/env.ts:36 | the parsed object keeps exactly the requested variables that are set, with their values |
| Env.ParseEnv | src/lib/env.ts:5-36 | a successful parse holds a port in 1000..9999, a non-negative mail port, and no variables outside the schema's string keys |
| Env.ParseEnvFails | src/lib/env.ts:5-36 | parsing fails exactly when `NODE_ENV` is unset or not one of the two names, `PORT` is unset, unreadable or outside 1000..9999, `NODEMAILER_PORT` is unset or unreadable, a required string is unset, or an e-mail or URL variable fails its format check; nothing else makes it fail |
| Env.ParseEnvFields | src/lib/env.ts:5-36 | a successful parse holds the enum, the port in range, the mail port, the truthiness of `NODEMAILER_SECURE`, every required string with its value and format, and the optional paths that are set |
| Env.NumberOfDecimal | src/lib/env.ts:7 | a decimal numeral reads as its value |
| Env.NumberIgnoresPadding | src/lib/env.ts:7 | white space around a numeral is ignored |
| Env.PortRange | src/lib/env.ts:7 | a numeral is accepted as the port exactly when its value lies in 1000..9999 |
| Env.BlankNumbers | src/lib/env.ts:7-14 | an unset `PORT` or `NODEMAILER_PORT` is rejected whatever else is set, while any blank value reads as 0 |
| Env.SecureIsTruthiness | src/lib/env.ts:15 | `NODEMAILER_SECURE` never makes the parse fail, and any non-empty value of it, "false" and "0" included, switches the flag on |
| Env.MissingRequiredRejected | src/lib/env.ts:11-33 | any missing required string makes the whole parse fail |
| Env.ParseReadsSchemaKeys | src/lib/env.ts:5-36 | environments that agree on the schema's keys parse alike |
| Env.UnknownKeysIgnored | src/lib/env.ts:5-36 | a variable outside the schema never changes the result |
| FileRepair.SelectedAlwaysUpdated | scripts/update-file.ts:17-27 | for every selected document the `updates` object is non-empty and sets `downloadedAt` to [] |
| FileRepair.RepairedSpec | scripts/update-file.ts:4-32 | a selected document ends with `downloadedAt` [] and `downloadedBy` kept, or [] when missing; an unselected one is untouched even if `downloadedBy` is missing; no other field is written |
| FileRepair.NoMissingLedger | scripts/update-file.ts:4-32 | afterwards no document has a null `downloadedAt`, and no document is added or removed |
| FileRepair.RepairIdempotent | scripts/update-file.ts:4-32 | a second run changes nothing further |
| FileRepair.FindDoc | scripts/update-file.ts:28-31 | the position found holds the document with that id; none is found when no document has it |
| FileRepair.UpdateById | scripts/update-file.ts:28-31 | the document with that id gets the fields the updates name; nothing else changes |
| FileRepair.UpdateExistingFiles | scripts/update-file.ts:3-34 | the loop leaves every document as the specification of one document says |
| TimestampRepair.WithStamp | scripts/fix-settings.ts:11-14 | the stamp is set, and the id, key, value and the other timestamp are kept |
| TimestampRepair.FillNullsSpec | src/scripts/fix-settings.ts:5-14 | the bulk update leaves no null in that field, gives every repaired record the one timestamp, keeps every non-null value and every other field, and creates or deletes nothing |
| TimestampRepair.FillNullsIdempotent | src/scripts/fix-settings.ts:5-14 | a rerun changes nothing |
| TimestampRepair.FillNullsKeepsOther | src/scripts/fix-settings.ts:5-14 | after both statements neither timestamp is null anywhere |
| TimestampRepair.FixSettingsBulk | src/scripts/fix-settings.ts:3-15 | the setting table becomes the two bulk repairs applied in order, and the unique indexes still hold |
| TimestampRepair.StampedInOrderSpec | scripts/fix-settings.ts:5-15 | the per-record loop leaves no null in that field, keeps every non-null value and every other field, and creates or deletes nothing |
| TimestampRepair.StampedInOrderIdempotent | scripts/fix-settings.ts:5-28 | a rerun changes nothing |
| TimestampRepair.ConstantClockIsBulk | scripts/fix-settings.ts:10-15 | with a clock that does not move, the per-record loop is the bulk update |
| TimestampRepair.FindSettingById | scripts/fix-settings.ts:11-14 | the position found holds the setting with that id; none is found when no setting has it |
| TimestampRepair.SetStamp | scripts/fix-settings.ts:11-14 | the setting with that id gets the new stamp; nothing else changes |
| TimestampRepair.StampEach | scripts/fix-settings.ts:10-15 | the loop stamps the selected settings in order, the k-th with the k-th reading of the clock |
| TimestampRepair.FixSettingsPerRecord | scripts/fix-settings.ts:3-29 | the setting table becomes the two loops applied in order |
| TimestampRepair.BothLoopsRepairBoth | scripts/fix-settings.ts:5-28 | afterwards neither timestamp is null anywhere, and the table has as many settings as before |
| TimestampRepair.FillEventCreatedAtSpec | src/scripts/fix-all-collections.ts:30-47 | every ad event ends with a `createdAt`, dated events are unchanged, ids and links are kept, the count is kept, and a rerun changes nothing |
| TimestampRepair.FixAllCollections | src/scripts/fix-all-collections.ts:3-49 | settings, views and clicks each get their missing `createdAt`; the second Setting pass changes nothing; no other collection is touched |
| Cleanup.FinalDataClean | src/scripts/final-data-clean.ts:4-24 | exactly the views and clicks with a `createdAt` remain, in order; no other collection is touched |
| Cleanup.DatedEventsKept | src/scripts/final-data-clean.ts:6-21 | every remaining event has a `createdAt`, every dated event remains, and a second run deletes nothing |
| Cleanup.DeletedCount | src/scripts/final-data-clean.ts:6-12 | the number deleted is the number of events without a `createdAt` |
| Cleanup.EmergencyClean | src/scripts/emergency-clean.ts:4-17 | exactly the settings dated after 1970-01-01 remain, in order; the unique indexes still hold; only the Setting collection is touched |
| Cleanup.EmergencyCleanSpec | src/scripts/emergency-clean.ts:6-13 | a setting is deleted exactly when its `createdAt` is null or not after the epoch, and a second run deletes nothing |

## Left out

- The S3/Wasabi multipart upload handlers and services (`initiateUpload`, `presignedUrl`, `completeMultiPart`, the S3 functions of src/services/file.ts and src/lib/s3.ts) are calls into a foreign service with nothing checked locally.
- Signing the download URL is the parameter `sign`, a function of the object key.
- The handlers take their configuration as the parameter `cfg`. In the program it is `Distribution.HandlerConfig` of the parsed environment. The environment schema does not declare `WASABI_BUCKET` or `WASABI_REGION`, which the handlers read, so both are the text "undefined" and every public URL is `https://undefined.s3.undefined.wasabisys.com/` followed by the key (Distribution.HandlerUrlsUndefined). The signing in `downloadFile` reads the process environment directly and is the parameter `sign`.
- `validateFileConstraints` and `TierConstraints` are not part of this model. The constraint check is the parameter predicate `allowed`, and the free tier's storage is the parameter `freeMaxStorage`.
- The zod request validators are not part of this model. They are the parameters `body` and `schema`; a failing one is the validation error reply.
- src/services/user.ts, src/services/link.ts and src/services/mail.ts are not part of this model. `upsertUserByEmail`, `updateUserById`, `createLink`, `createMail` and `getLinkById` are modelled by what the handlers rely on; `getUserById` by a lookup by id.
- Mail delivery is left out. `sendFiles` is modelled only by the notice it is handed.
- Concurrency is left out. The `Promise.all` pairs and the upserts run one after another in the model, and no atomicity across handlers is claimed. The read-then-update race in `downloadFile` is not modelled.
- JSON Web Token signature checking and expiry are left out. Token decoding is the parameter `verify`, which decodes, reports expiry or reports a malformed token.
- The `select` projections of the queries are left out: every query returns whole records.
- `getUserById` is modelled as a plain lookup by id: whether it skips soft-deleted users is not known here.
- `@updatedAt` timestamps written by Prisma on every update are not modelled.
- A MongoDB null field and an unset field are both `None`. The raw commands of src/scripts/fix-all-collections.ts and src/scripts/final-data-clean.ts match both, so there the model is exact. The Prisma-client filters `equals: null` of scripts/update-file.ts, scripts/fix-settings.ts, src/scripts/fix-settings.ts and src/scripts/emergency-clean.ts match explicit nulls only. The model assumes that no document lacks those fields entirely; a document that did would be selected by the model but skipped by these scripts.
- The Prisma schema is not part of this model, so its defaults are assumed. A created file starts with `downloads` and `claims` 0, `isExpired` and `isDeleted` false, and empty ledgers (FileService.NewFile). A placeholder recipient account gets only `totalStorage` and `usedStorage` from the handler; the model gives it role `USER`, `isVerified` and `isDeleted` false, tier `FREE` and no credentials (UserService.Placeholder). A created setting and a tracked ad event get `createdAt` equal to `now` (Monetization.Upsert, Ads.NewEvent).
- A missing or non-string `to` in the mail body is not modelled. `split` then throws a TypeError before the body schema runs.
- A request to `getLink` whose parameters fail `getLinkParamsSchema` is not modelled. `Distribution.GetLink` takes the link id as a string and has no reply for a failed parse, which the handler's catch branch answers.
- Non-string monetization fields in the `updateMonetizationSettings` body are not modelled. The body is cast, not validated, and the model's fields are strings.
- Prisma's malformed-ObjectId errors are not modelled: ids are plain strings.
- Every Prisma error other than "record to update not found" is not modelled. This includes `updateUser`'s "Invalid value" 400 branch; only a rejected unique e-mail is modelled as a failed write.
- A non-string `originalName` is not modelled. It makes `updateFile` throw a TypeError.
- The `updateFile` catch branch refers to a `Prisma` namespace the file never imports. Any failed write is therefore the `Crash` reply, not a 404.
- `getAllUsers` reads through `getUsers` in src/services/user.ts, which is not part of this model.
- Kpis.TopDownloadsSpec: the order among files with equal downloads is the model's own; MongoDB's tie order is not specified.
- `adStats` counts all events linked to the setting: `createdAt: { not: undefined }` filters nothing.
- Env.JsNumber: models `Number(...)` only for blank strings and unsigned decimal digits between white space. Signs, fractions, exponents, hexadecimal and `Infinity` are read as unreadable.
- Env.ParseEnv: numbers are read through Env.JsNumber, so a value such as `NODEMAILER_PORT=-1` or `PORT=1e3`, which `Number` reads, makes the model's parse fail.
- Env.ParseEnvFails: the same restriction applies; the "unreadable" cases include every numeral outside unsigned decimal digits, which the source may accept.
- Env.ParseEnvFields: the e-mail and URL format checks of zod are the parameters `isEmail` and `isUrl`.
- src/scripts/fix-settings.ts imports the Prisma client through a path that does not resolve from its directory. Its logic is modelled as if the import worked.
- Each loop iteration of scripts/fix-settings.ts evaluates `new Date()` afresh. It is modelled as a clock `nat -> Time` read once per repaired record.
- `new Date('1970-01-01')` is the epoch, time 0.
- Fractional day counts are not modelled. The body schemas are not part of this model, and `ShareRequest.expiresInDays` is an integer, while `expiresInDays * 24 * 60 * 60 * 1000` accepts any number.
- The clamd virus scanner and the commented-out handlers of the file controller are left out.
- src/controllers/notification.ts is plain persistence around string-to-date parsing, and is left out.
- The date-string conversion scripts (fix-datetime-formats, final-datetime-fix, convert-datetime) rely on MongoDB's string-to-date operators and are left out. validate-datetime only logs a count and is left out too.
- The routers, src/app.ts and the Amplify stubs are framework wiring and are left out.
- Logging (`console.log`, `console.error`) and the HTTP response envelopes are left out.
