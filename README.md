# Email-Manager data layer, in Dafny

Email-Manager is a single-page dashboard for bulk e-mail campaigns. Recipients are `{name, email, country}` records imported from a CSV-like file. Sender profiles carry a name, an address, default texts, a signature and a default flag. This project models the plain data logic behind the pages and proves what that logic promises. The logic covered:

- **Import.** The file checks (type whitelist, 5 MB limit) and the line parser.
- **Recipient directory.** The case-insensitive duplicate grouping by e-mail, with the order in which JavaScript lists an object's keys. Also the distinct-country counts, the substring search, the duplicates-only view and the e-mail lists handed to the merge callback.
- **Dashboard.** The per-country breakdown: a `Map` built in a loop, then a stable sort by count and an integer half-up percentage. Also the country targeting of a send, the `disabled` rule and the preview recipient.
- **State reducers.** The sender-profile, recipient and e-mail-draft stores, as classes whose methods update their fields in place. Also the settings page's local editing state.
- **Helpers.** Four small pure helpers:
  - the URL tokeniser that turns text into link and text parts;
  - the subject/message length rules;
  - the country-filter toggle and the `parseInt` limit;
  - the FAQ filter and its open-item toggle.

Layout, one module per source file:

| module | file |
|---|---|
| `FileUpload` | `file_upload.dfy` |
| `RecipientsList` | `recipients_list.dfy` |
| `RecipientsPage` | `recipients_page.dfy` |
| `Stats` | `stats.dfy` |
| `Dashboard` | `dashboard.dfy` |
| `SettingsSlice` | `settings_slice.dfy` |
| `RecipientsSlice` | `recipients_slice.dfy` |
| `EmailSlice` | `email_slice.dfy` |
| `SettingsPage` | `settings_page.dfy` |
| `EmailForm` | `email_form.dfy` |
| `RecipientFilters` | `recipient_filters.dfy` |
| `Faq` | `faq.dfy` |
| `LinkUtils` | `link_utils.dfy` |

Shared modules:

- `Types`: the records of `src/types/index.ts`.
- `Wrappers`: `Option`.
- `Seqs`: `map`, `filter`, de-duplication in first-occurrence order, a stable sort and sums, with their lemmas.
- `Text`:
  - JavaScript's `trim` whitespace set;
  - ASCII `toLowerCase`;
  - `includes` and `split`;
  - decimal printing;
  - `parseInt` as section 19.2.5 of ECMA-262 defines it.
- `ObjectKeys`: the order `Object.keys`, `Object.values` and `Object.entries` use (section 10.1.11.1 of ECMA-262). Keys that are array indices come first, in ascending numeric order; the other keys follow in creation order.

Behaviour of the code worth knowing, which the model follows as written:

- **One-field lines.** A line with a single field gets no e-mail at all: `email` is left undefined, modelled as `None`. It is not given an empty string.
- **Merge.** Merging has no implementation: only the callback's type exists. So the model states exactly which e-mail lists the page hands to it, and nothing about what a merge would keep.
- **Current profile after delete.** The store falls back to the first remaining profile's id. When that id is the empty string, it falls back to `null` instead (`|| null`).
- **Delete on the settings page.** The page's own delete button reads the new selection from the list as it was before the deletion. Deleting the first profile therefore leaves the deleted id selected (`SettingsPage.DeleteFirstKeepsDeletedId`).
- **The "Non défini" label.** The dashboard labels recipients without a country "Non défini". Its target filter, however, compares the empty string. Selecting that label therefore targets no one (`Dashboard.UndefinedSelectionExample`, `Dashboard.UnnamedNeverTargeted`).
- **`EmailContainer`.** It holds a recipient list that is never filled. Its form is therefore always disabled and offers no country (`EmailForm.ContainerAlwaysDisabled`).

Inputs that are I/O, clocks or callbacks become parameters:

- the text the file reader produces;
- the id `Date.now()` generates;
- the value of `parseInt`'s input field.

## Model

| member | source | states |
|---|---|---|
| FileUpload.ValidateFile | src/components/FileUpload.tsx:11-21 | a file passes iff its type is `text/csv` or `application/vnd.ms-excel` and its size is at most 5 MB; a size error only arises for an accepted type |
| FileUpload.TypeCheckedFirst | src/components/FileUpload.tsx:11-17 | an unsupported type is rejected with "Type de fichier non supporté" whatever the size |
| FileUpload.SizeBoundary | src/components/FileUpload.tsx:12-20 | 5,242,880 bytes is accepted, one byte more is rejected with "Fichier trop volumineux" |
| FileUpload.ParseLineFields | src/components/FileUpload.tsx:48-51 | the first three comma fields, trimmed, become name, e-mail and country; further fields are ignored |
| FileUpload.ParseLineTwoFields | src/components/FileUpload.tsx:48 | a two-field line gets the empty country |
| FileUpload.ParseLineOneField | src/components/FileUpload.tsx:48 | a one-field line gets no e-mail at all and the empty country |
| FileUpload.ParseLines | src/components/FileUpload.tsx:44-52 | the file yields one record per line that is not blank after trimming, in line order; the first line is data like any other |
| FileUpload.ParseKeepsNonBlankLines | src/components/FileUpload.tsx:44-46 | a line is kept iff it is a line of the text and not all white space |
| FileUpload.ParseTrimmedFields | src/components/FileUpload.tsx:48-51 | fields without commas and without surrounding space are read back exactly |
| FileUpload.ParseFormattedRow | src/components/FileUpload.tsx:48-51 | a recipient written as `name,email,country` with clean fields parses back to itself |
| FileUpload.ParseFormattedRows | src/components/FileUpload.tsx:43-52 | rows of clean recipients joined by newlines parse back to the same recipients in the same order |
| FileUpload.ParseTwoLineExample | src/components/FileUpload.tsx:43-52 | `Alice,alice@x.com,France\nBob,bob@x.com,Togo` parses to exactly those two records in that order |
| FileUpload.Uploader.constructor | src/components/FileUpload.tsx:24-27 | not loading, no error, no file name |
| FileUpload.Uploader.HandleFileUpload | src/components/FileUpload.tsx:29-63 | no file changes nothing; a rejected file sets the error message and delivers nothing; an accepted one clears the error, records its name and hands the whole parsed list over; loading is off afterwards |
| FileUpload.Uploader.Dismiss | src/components/FileUpload.tsx:155-156 | the file name and the error are cleared |
| RecipientsList.Search | src/components/RecipientsList.tsx:12-18 | an order-preserving subsequence holding exactly the records whose lower-cased name, e-mail or country contains the lower-cased term, every copy of a matching record kept and none of the others |
| RecipientsList.SearchIff | src/components/RecipientsList.tsx:13-17 | a record is in the result iff it is in the list and matches |
| RecipientsList.SearchEmptyTerm | src/components/RecipientsList.tsx:14 | the empty term keeps every record |
| RecipientsList.SearchCaseInsensitive | src/components/RecipientsList.tsx:14-16 | the term's case does not matter |
| RecipientsList.SearchMonotone | src/components/RecipientsList.tsx:13-17 | a term containing another yields a subsequence of the other's results |
| RecipientsPage.GroupByEmail | src/components/Recipients/RecipientsPage.tsx:29-36 | the `reduce` creates one group per lower-cased e-mail, in first-occurrence order, holding exactly the records with that key in list order |
| RecipientsPage.MembersCount | src/components/Recipients/RecipientsPage.tsx:29-36 | a group's size is the number of records with its key |
| RecipientsPage.ComputeDuplicates | src/components/Recipients/RecipientsPage.tsx:28-39 | `duplicates` is the groups of size above one, in the object's key order |
| RecipientsPage.ComputeDuplicateGroups | src/components/Recipients/RecipientsPage.tsx:41-57 | `duplicateGroups` pairs each such group with its key |
| RecipientsPage.DuplicatesAreGroupRecipients | src/components/Recipients/RecipientsPage.tsx:28-56 | `duplicates` is the member lists of `duplicateGroups` |
| RecipientsPage.DuplicateGroupIff | src/components/Recipients/RecipientsPage.tsx:41-56 | a key has a group iff at least two records have it |
| RecipientsPage.RepeatedKeyGrouped | src/components/Recipients/RecipientsPage.tsx:51-56 | every repeated key has a group holding exactly its records |
| RecipientsPage.DuplicateGroupMembers | src/components/Recipients/RecipientsPage.tsx:29-36 | every member of a group has the group's key; the group keeps list order and has at least two members |
| RecipientsPage.DuplicateGroupsDisjoint | src/components/Recipients/RecipientsPage.tsx:29-36 | two groups have different keys and no common member |
| RecipientsPage.DuplicateGroupsIndexKeysFirst | src/components/Recipients/RecipientsPage.tsx:52 | a key that is an array index is listed before every other key, in ascending numeric order |
| RecipientsPage.DuplicateGroupsFirstOccurrence | src/components/Recipients/RecipientsPage.tsx:52 | without array-index keys, groups are listed in the order of their keys' first occurrence |
| RecipientsPage.MergeGroupPayload | src/components/Recipients/RecipientsPage.tsx:316-319 | confirming the merge of one duplicate group sends its members' e-mails in group order: one per member, at least two, each lower-casing to the group's key |
| RecipientsPage.MergeAllIsGroupPayloads | src/components/Recipients/RecipientsPage.tsx:142-146 | the "merge all" list is the per-group lists concatenated in group order |
| RecipientsPage.MergeAllHas | src/components/Recipients/RecipientsPage.tsx:142-146 | an e-mail is in the "merge all" list iff some record with a repeated key has it |
| RecipientsPage.GroupEmailSent | src/components/Recipients/RecipientsPage.tsx:142-146 | every group member's e-mail is in the "merge all" list |
| RecipientsPage.DuplicatesOnlyKeepsRepeatedKeys | src/components/Recipients/RecipientsPage.tsx:67-72 | the duplicates-only view keeps the records whose exact e-mail is a duplicate member's e-mail |
| RecipientsPage.DuplicateMembersShown | src/components/Recipients/RecipientsPage.tsx:67-72 | every duplicate member survives the restriction |
| RecipientsPage.ShownIff | src/components/Recipients/RecipientsPage.tsx:64-80 | the listed records are a subsequence of the directory: those that match the search and, when duplicates are shown, have a duplicate member's e-mail; each such record is shown as often as the directory holds it |
| RecipientsPage.NamedCountriesIff | src/components/Recipients/RecipientsPage.tsx:59-62 | the counted countries are exactly the non-empty country strings of some record, compared case-sensitively, at most one per record |
| ObjectKeys.PropertyOrderPermutation | src/components/Recipients/RecipientsPage.tsx:51-56 | the object lists every created key exactly once |
| ObjectKeys.PropertyOrderIndicesFirst | src/components/Recipients/RecipientsPage.tsx:52 | array-index keys come first, in ascending numeric order |
| ObjectKeys.PropertyOrderOthers | src/components/Recipients/RecipientsPage.tsx:52 | the other keys keep their creation order |
| ObjectKeys.PropertyOrderNoIndices | src/components/Recipients/RecipientsPage.tsx:52 | without array-index keys the order is the creation order |
| ObjectKeys.PropertyOrderExample | src/components/Recipients/RecipientsPage.tsx:52 | keys created as `b, 10, a, 9` are listed `9, 10, b, a` |
| Stats.CardsBounds | src/components/Dashboard/Stats.tsx:9-26 | the total is the list length; the country count is at most the total and 0 iff there are no recipients; "emails sent" is 0 |
| Stats.EmptyCountryCounts | src/components/Dashboard/Stats.tsx:9 | the country count is the count of named countries plus one when some record has the empty country |
| Stats.EmptyCountryPresent | src/components/Dashboard/Stats.tsx:9 | the empty country is one of the counted values iff some record has it |
| Dashboard.Label | src/components/Dashboard/Dashboard.tsx:26 | a record's label is never empty: the record's country when that is non-empty, "Non défini" when it is empty |
| Dashboard.CountByLabel | src/components/Dashboard/Dashboard.tsx:23-28 | the `forEach` loop builds a map with one entry per label, in first-occurrence order, holding the label's number of records |
| Dashboard.ComputeCountryStats | src/components/Dashboard/Dashboard.tsx:22-37 | the breakdown is built from that map by a stable sort on descending count and the percentage rule |
| Dashboard.StatRow | src/components/Dashboard/Dashboard.tsx:22-37 | each row names a label of the list, with that label's count (between 1 and the list length) and its percentage |
| Dashboard.SameLabelSameRow | src/components/Dashboard/Dashboard.tsx:23-30 | no label has two rows |
| Dashboard.LabelOffered | src/components/Dashboard/Dashboard.tsx:23-30 | every label of the list has a row |
| Dashboard.StatsLength | src/components/Dashboard/Dashboard.tsx:25-37 | there are as many rows as distinct labels; no recipients give no rows |
| Dashboard.CountsSum | src/components/Dashboard/Dashboard.tsx:23-30 | the counts sum to the number of recipients |
| Dashboard.StatsDescending | src/components/Dashboard/Dashboard.tsx:31 | rows come in descending count order |
| Dashboard.StatsTiesInFirstOccurrenceOrder | src/components/Dashboard/Dashboard.tsx:30-31 | rows with equal counts keep the order of their labels' first occurrence |
| Dashboard.PercentageRounds | src/components/Dashboard/Dashboard.tsx:35 | the percentage lies in [0, 100], is within half a unit of 100 * count / total, and is 0 for no record and 100 for all |
| Dashboard.StatsPercentages | src/components/Dashboard/Dashboard.tsx:35 | every row's percentage lies in [0, 100] and rounds 100 * count / total |
| Dashboard.AvailableCountriesAreLabels | src/components/Dashboard/Dashboard.tsx:170 | the offered countries are exactly the labels, never the empty string |
| Dashboard.AvailableCountriesNoDup | src/components/Dashboard/Dashboard.tsx:170 | no country is offered twice |
| Dashboard.TargetsIff | src/components/Dashboard/Dashboard.tsx:41-44 | targeting keeps, in order, every recipient when nothing is selected, else those whose `country \|\| ""` is selected; a targeted record keeps all its copies |
| Dashboard.UnnamedNeverTargeted | src/components/Dashboard/Dashboard.tsx:24-44 | with a selection taken from the offered countries, no recipient without a country is targeted |
| Dashboard.TargetsAllOffered | src/components/Dashboard/Dashboard.tsx:24-44 | selecting every offered country targets exactly the recipients with a country |
| Dashboard.UndefinedSelectionExample | src/components/Dashboard/Dashboard.tsx:24-44 | selecting "Non défini" targets nobody, although the recipient without a country is shown under that label |
| Dashboard.DisabledIffNothingOffered | src/components/Dashboard/Dashboard.tsx:170-171 | the form is disabled iff there are no recipients, iff no country is offered |
| Dashboard.PreviewIsRecipient | src/components/Dashboard/Dashboard.tsx:183-189 | the preview shows the first recipient, or the fixed example when there is none |
| SettingsSlice.FindIndex | src/store/slices/settings/settingsSlice.ts:35 | the first position holding the id, or -1 exactly when no profile has it |
| SettingsSlice.Replaced | src/store/slices/settings/settingsSlice.ts:34-39 | the first profile with the payload's id is replaced, every other entry and the length stay; no match changes nothing |
| SettingsSlice.WithoutId | src/store/slices/settings/settingsSlice.ts:41 | an order-preserving subsequence without the id that keeps every other profile, with all its copies |
| SettingsSlice.WithoutIdNoMatch | src/store/slices/settings/settingsSlice.ts:41 | deleting an absent id changes nothing; deleting twice is deleting once |
| SettingsSlice.CurrentAfterDelete | src/store/slices/settings/settingsSlice.ts:42-44 | another current profile is kept; a deleted current one becomes the first remaining id, or none when no profile remains or that id is empty (`\|\| null`) |
| SettingsSlice.DeletedNotCurrent | src/store/slices/settings/settingsSlice.ts:40-44 | the deleted id is never current afterwards |
| SettingsSlice.WithDefault | src/store/slices/settings/settingsSlice.ts:55-60 | exactly the profiles with the id become the default, and no other field changes |
| SettingsSlice.WithDefaultIdempotent | src/store/slices/settings/settingsSlice.ts:55-60 | making a profile the default twice is making it the default once; ids stay |
| SettingsSlice.WithDefaultSingle | src/store/slices/settings/settingsSlice.ts:55-60 | with unique ids at most one profile is the default, and one is iff the id exists |
| SettingsSlice.SettingsStore.constructor | src/store/slices/settings/settingsSlice.ts:20-25 | no profiles, no current profile, not saving, no error |
| SettingsSlice.SettingsStore.AddProfile | src/store/slices/settings/settingsSlice.ts:31-33 | the payload is appended, duplicates of its id included; nothing else changes |
| SettingsSlice.SettingsStore.UpdateProfile | src/store/slices/settings/settingsSlice.ts:34-39 | the list becomes `Replaced`; nothing else changes |
| SettingsSlice.SettingsStore.DeleteProfile | src/store/slices/settings/settingsSlice.ts:40-44 | the list loses every profile with the id; the current profile follows `CurrentAfterDelete` and is never the deleted id |
| SettingsSlice.SettingsStore.SetCurrentProfile | src/store/slices/settings/settingsSlice.ts:46-48 | the id becomes current, present or not; nothing else changes |
| SettingsSlice.SettingsStore.SetIsSaving | src/store/slices/settings/settingsSlice.ts:49-51 | only the saving flag changes |
| SettingsSlice.SettingsStore.SetError | src/store/slices/settings/settingsSlice.ts:52-54 | only the error changes |
| SettingsSlice.SettingsStore.SetDefaultProfile | src/store/slices/settings/settingsSlice.ts:55-60 | the list becomes `WithDefault`; nothing else changes |
| RecipientsSlice.WithoutEmail | src/store/slices/recipients/recipientsSlice.ts:26-28 | an order-preserving subsequence without the exact e-mail that keeps every other record |
| RecipientsSlice.WithoutEmailNoMatch | src/store/slices/recipients/recipientsSlice.ts:27 | removing an absent e-mail changes nothing; removing twice is removing once |
| RecipientsSlice.WithoutEmailCount | src/store/slices/recipients/recipientsSlice.ts:27 | the list shrinks by the number of records with that e-mail |
| RecipientsSlice.RecipientsStore.constructor | src/store/slices/recipients/recipientsSlice.ts:10-14 | no recipients, not loading, no error |
| RecipientsSlice.RecipientsStore.SetRecipients | src/store/slices/recipients/recipientsSlice.ts:20-22 | the list is replaced wholesale; loading and error stay |
| RecipientsSlice.RecipientsStore.AddRecipient | src/store/slices/recipients/recipientsSlice.ts:23-25 | the record is appended, duplicate e-mails allowed; loading and error stay |
| RecipientsSlice.RecipientsStore.RemoveRecipient | src/store/slices/recipients/recipientsSlice.ts:26-28 | the list becomes `WithoutEmail`, shorter by the e-mail's count; loading and error stay |
| EmailSlice.EmailDraft.constructor | src/store/slices/email/emailSlice.ts:10-15 | empty subject and content, no attachments, no countries |
| EmailSlice.EmailDraft.SetSubject | src/store/slices/email/emailSlice.ts:21-23 | only the subject changes |
| EmailSlice.EmailDraft.SetContent | src/store/slices/email/emailSlice.ts:24-26 | only the content changes |
| EmailSlice.EmailDraft.SetAttachments | src/store/slices/email/emailSlice.ts:27-29 | only the attachment list changes |
| EmailSlice.EmailDraft.SetSelectedCountries | src/store/slices/email/emailSlice.ts:30-32 | only the country list changes |
| SettingsPage.FirstDefault | src/components/Settings/SettingsPage.tsx:26 | the first default profile, or none exactly when no profile is the default |
| SettingsPage.InitialSelectionChoice | src/components/Settings/SettingsPage.tsx:25-27 | the first default profile's id is selected when it has one; the selection is always empty or an existing id |
| SettingsPage.InitialSelectionNoDefault | src/components/Settings/SettingsPage.tsx:25-27 | without a default, the first profile's id is selected, or `''` for no profile |
| SettingsPage.EditedOnlyField | src/components/Settings/SettingsPage.tsx:113-170 | an edit sets that one field on the selected profiles, and changes nothing else |
| SettingsPage.CheckedDefaults | src/components/Settings/SettingsPage.tsx:179-184 | the selected profile's flag becomes the box's value and every other one false; with unique ids at most one default remains, none after unchecking |
| SettingsPage.DeleteFirstKeepsDeletedId | src/components/Settings/SettingsPage.tsx:195-198 | deleting the first profile leaves its id selected although no profile has it any more |
| SettingsPage.SettingsEditor.constructor | src/components/Settings/SettingsPage.tsx:24-28 | the given profiles, the initial selection, not saving |
| SettingsPage.SettingsEditor.AddProfile | src/components/Settings/SettingsPage.tsx:31-43 | a blank, non-default profile with the given id is appended and selected; the others stay |
| SettingsPage.SettingsEditor.EditField | src/components/Settings/SettingsPage.tsx:113-170 | the list becomes `Edited`; the selection stays |
| SettingsPage.SettingsEditor.ToggleDefault | src/components/Settings/SettingsPage.tsx:179-184 | the list becomes `Checked`; the selection stays |
| SettingsPage.SettingsEditor.DeleteSelected | src/components/Settings/SettingsPage.tsx:195-198 | the selected id's profiles go, and the selection becomes the first id of the list before the click |
| SettingsPage.SettingsEditor.Submit | src/components/Settings/SettingsPage.tsx:45-55 | the whole list is handed over while the saving flag is up, and the flag is down afterwards |
| EmailForm.ValidateIff | src/components/EmailForm.tsx:6-9 | no error iff the subject has at least 3 and the message at least 10 characters; each short field contributes its own message |
| EmailForm.AvailableCountriesNamed | src/components/EmailForm.tsx:194-197 | the distinct non-empty countries of the recipients, in first-occurrence order, each occurring in the list |
| EmailForm.ContainerAlwaysDisabled | src/components/EmailForm.tsx:193-203 | the container's never-filled recipient list offers no country and disables the form |
| EmailForm.SelectionOfOptions | src/components/EmailForm.tsx:124-134 | choosing options gives back their values, in order |
| RecipientFilters.ToggleCountryChecks | src/components/RecipientFilters.tsx:21-27 | the box shows the new state for that country, the others' boxes stay, the limit stays |
| RecipientFilters.ToggleCountryOrder | src/components/RecipientFilters.tsx:23-25 | checking appends the country at the end; unchecking removes every occurrence and keeps the rest in order |
| RecipientFilters.SetLimitReads | src/components/RecipientFilters.tsx:43 | the limit reads a decimal input back, becomes 0 when `parseInt` fails, and leaves the countries alone |
| RecipientFilters.NegativeLimit | src/components/RecipientFilters.tsx:43 | a minus sign gives a negative limit: nothing rejects it |
| Text.ParseIntSkipsSpace | src/components/RecipientFilters.tsx:43 | `parseInt` skips leading white space |
| Text.DecimalParses | src/components/RecipientFilters.tsx:43 | `parseInt` reads a decimal number back, whatever non-digit text follows it |
| Text.TrimEmptyIff | src/components/FileUpload.tsx:46 | a line trims to nothing iff it is all white space |
| Text.TrimIdempotent | src/components/FileUpload.tsx:50 | trimming twice is trimming once |
| Text.SplitJoin | src/components/FileUpload.tsx:44-49 | splitting pieces joined by a separator they do not contain gives them back |
| Text.JoinSplit | src/components/FileUpload.tsx:44-49 | joining the pieces of a split gives the text back |
| Text.ContainsLower | src/components/RecipientsList.tsx:14-16 | a substring stays a substring after lower-casing both |
| Faq.CategoriesOnce | src/components/FAQ/FAQ.tsx:43 | each category of the data is listed once |
| Faq.Filtered | src/components/FAQ/FAQ.tsx:45-52 | an order-preserving subsequence holding exactly the items of the selected category whose question or answer contains the term, every copy of a passing item kept |
| Faq.FilteredIff | src/components/FAQ/FAQ.tsx:45-52 | an item is shown iff it is in the data and passes both tests |
| Faq.FilteredAll | src/components/FAQ/FAQ.tsx:46-50 | no category and no term show every item |
| Faq.FilteredCategory | src/components/FAQ/FAQ.tsx:46 | with a category selected, only its items are shown |
| Faq.FilteredCaseInsensitive | src/components/FAQ/FAQ.tsx:47-50 | the term's case does not matter |
| Faq.ToggleItemFlips | src/components/FAQ/FAQ.tsx:54-60 | toggling flips that item's membership, keeps the others', and toggling twice restores membership |
| Faq.ToggleItemNoDup | src/components/FAQ/FAQ.tsx:54-60 | the open list never holds an item twice |
| LinkUtils.ConvertLinksEmpty | src/utils/linkUtils.tsx:7 | the empty text gives no part |
| LinkUtils.ConvertLinksSpells | src/utils/linkUtils.tsx:12-15 | the part texts joined give the input back, and no part is empty |
| LinkUtils.ConvertLinksShape | src/utils/linkUtils.tsx:4-20 | a link's text starts with `http://`, `https://` or `www.` and holds no white space; its target adds `https://` to a `www.` text; a text part holds no match |
| LinkUtils.ConvertLinksSpaceAfter | src/utils/linkUtils.tsx:4-15 | the part after a link starts with white space: the match takes every character up to it |
| LinkUtils.MatchIsUrl | src/utils/linkUtils.tsx:4-19 | a match is a URL, and the pattern finds it again in the piece alone, so it becomes a link |
| LinkUtils.BetweenNoMatch | src/utils/linkUtils.tsx:12-19 | the text between matches holds no match, so it becomes a span |
| LinkUtils.KeysDistinct | src/utils/linkUtils.tsx:16-39 | a key is `link-` or `text-` after the part's kind, followed by its position; two parts never share a key |
| LinkUtils.ConvertLinksExample | src/utils/linkUtils.tsx:12-43 | `see www.a` gives the text `see ` and a link to `https://www.a` |

## Left out

- Markup, styling, icons, routing and display fallbacks: they hold no logic.
- The file reader, drag and drop, and the timing of the loading flag's reset: they are asynchronous browser I/O. The parser is a function of the text the reader produces, and `Uploader.HandleFileUpload` takes that text as a parameter.
- Awaiting `onSave`, with its error only logged: it is an external call. `SettingsEditor.Submit` returns the list it hands over.
- Text.Lower: lower-cases ASCII letters only, because full Unicode case mapping is out of scope. Lengths in the length rules count characters, not UTF-16 code units.
- Dashboard.PercentageRounds: states exact integer half-up rounding. The source rounds a binary floating-point quotient, which can differ at exact halves.
- Text.ParseInt: reads arbitrarily large numbers exactly. JavaScript numbers lose precision beyond 2^53.
- Merging recipients: it has no implementation, only the callback type. The application wiring (`src/App.tsx`) does not supply one either.
- Crashes on e-mail keys: grouping a record whose lower-cased e-mail is `__proto__` or `constructor` throws in the source, because the accumulator is a plain object. A record without an e-mail also throws when lower-cased. The model treats every e-mail as an ordinary key and takes recipients with a string e-mail.
- The `try`/`catch` of `convertLinksToAnchors`: while the pattern is fixed nothing in the body throws, so its fallback is not modelled.
- The dashboard's hardcoded sample statistics (`Dashboard.tsx:49-53`): they are constants, not logic.
- The FAQ's fixed question list: its contents are not reproduced, and the functions take the data as a parameter.
- The `initialProfiles || []` fallback: the settings constructor takes a list. The render-time `try`/`catch` and `console` logging are left out as well.
- Library internals (zod, react-select, Redux Toolkit, Immer, the store set-up): only the rules they are given are modelled.
- `Date.now()` ids: a parameter of `SettingsEditor.AddProfile`.
