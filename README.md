# Wishlist store and file-type acceptance, in Dafny

This project models the two pieces of logic in a storefront theme's browser
scripts:

- **`WishlistManager`** (`assets/wishlist.js`). It holds an ordered list of wishlist
  entries keyed by product id and writes it through to one `localStorage` key
  (`shopify_wishlist`). It reloads the list when another tab changes that key.
  It also renders the button labels and the header badge from the list.
- **`CustomFileUpload`** (`assets/custom-file-upload.js`). It computes the text shown
  for the chosen files and checks each file against the input's `accept`
  attribute. A file passes when an entry matches by extension, by MIME wildcard or by
  exact MIME type. Each file that fails logs one warning.

Modules:

| file | module | models |
|---|---|---|
| `optional.dfy` | `Optional` | `Option`, for `null`/`undefined` and failed parses |
| `text.dfy` | `Text` | `trim`, `split`, `toLowerCase`, `startsWith`, number-to-string |
| `wishlist_model.dfy` | `WishlistModel` | entries and the list operations (add, filter, toggle, `some`) |
| `wishlist_codec.dfy` | `WishlistCodec` | the stored text form of the list (stand-in for `JSON.stringify`/`JSON.parse`) |
| `wishlist_view.dfy` | `WishlistView` | `getProductData`, button state, header badge |
| `wishlist_store.dfy` | `WishlistStore` | `localStorage` (class `Storage`) and `WishlistManager` (a class with the `wishlist` field) |
| `file_upload.dfy` | `FileUpload` | accept matching, the validation loop, the file-name label |

State that the source changes in place is modelled as classes:
- `WishlistManager.wishlist` is a field that the mutators reassign.
- `Storage.items` is a `map<string, string>` that `setItem` updates.

Each mutator's `ensures` ties the new list to a pure function of the old one (`AddEntry`, `RemoveId`, `ToggleEntry`). It also gives the new storage contents (`Persisted`). Lemmas about those functions prove the promised properties:
- no duplicate ids are introduced;
- the count arithmetic;
- toggling twice restores membership;
- a save loads back as the same list.

The current time (`new Date().toISOString()`) is a parameter of the mutators. A failing `setItem` (quota exceeded, storage disabled) is modelled by `Storage.writable`.

Where the code does less, or more, than one might expect, the model follows the code:
- One might expect removing a present id to lower the count by exactly one. The code removes every entry with that id, so the model proves the one-less count only for lists without duplicate ids. Loaded data may contain duplicates, and the code does not reject them.
- A stored empty string loads as `[]` (`stored ? … : []`). The model does the same, as well as for a missing key.
- One might expect the storage handler to react only to changes made in another tab. The handler tests only the event's key, and so does the model.
- Reloading gives back more than the same set of ids: the model proves that the reloaded list is equal to the saved one, in the same order.

## Model

| member | source | states |
|---|---|---|
| `Text.Trim` | assets/custom-file-upload.js:89 | the trimmed text is a slice of the input that starts after the leading whitespace and neither begins nor ends with ECMAScript whitespace |
| `Text.TrimIsCore` | assets/custom-file-upload.js:89 | any slice surrounded only by whitespace, and not itself starting or ending with whitespace, is the trimmed string |
| `Text.TrimIdempotent` | assets/custom-file-upload.js:89 | trimming twice is trimming once |
| `Text.SplitOn` | assets/custom-file-upload.js:89 | no piece of a `split` contains the separator |
| `Text.SplitOnCount` | assets/custom-file-upload.js:89 | `split` gives one more piece than there are separators |
| `Text.JoinSplit` | assets/custom-file-upload.js:89 | joining the pieces with the separator gives the input back |
| `Text.SplitFirst` | assets/custom-file-upload.js:107 | `split('/')[0]` is the prefix before the first `/`, or the whole string |
| `Text.SplitLast` | assets/custom-file-upload.js:94 | `split('.').pop()` is the suffix after the last `.`, or the whole string |
| `Text.Lower` | assets/custom-file-upload.js:94 | lower-casing keeps the length, changes only ASCII capitals, and turns each ASCII capital into its own lower-case letter |
| `Text.NatToDecimal` | assets/custom-file-upload.js:73 | a count renders as a non-empty run of decimal digits without a leading zero |
| `Text.DecimalRoundTrip` | assets/custom-file-upload.js:73 | the rendered digits read back as the count |
| `Text.DecimalCanonical` | assets/wishlist.js:145-149 | the rendering of a count is the only non-empty digit string without a leading zero that has that value |
| `WishlistModel.HasId` | assets/wishlist.js:62-64 | `isInWishlist` holds exactly when some entry has that id |
| `WishlistModel.AddEntry` | assets/wishlist.js:32-38 | after an add the id is present and the old list is a prefix of the new one |
| `WishlistModel.RemoveId` | assets/wishlist.js:47 | the filter keeps exactly the entries whose id differs, and never grows the list |
| `WishlistModel.ToggleEntry` | assets/wishlist.js:54-60 | toggle inverts membership of the toggled id |
| `WishlistModel.AddAbsentAppends` | assets/wishlist.js:32-38 | adding an absent id appends exactly one entry at the end with that id, time and metadata |
| `WishlistModel.AddPresentUnchanged` | assets/wishlist.js:33 | adding a present id leaves the list, its times and metadata unchanged |
| `WishlistModel.AddPreservesNoDuplicates` | assets/wishlist.js:33-38 | add keeps ids unique |
| `WishlistModel.RemoveDistributes` | assets/wishlist.js:47 | the filter keeps relative order (it distributes over concatenation) |
| `WishlistModel.RemoveAbsentUnchanged` | assets/wishlist.js:47 | removing an absent id leaves the list unchanged |
| `WishlistModel.RemovePreservesNoDuplicates` | assets/wishlist.js:47 | remove keeps ids unique |
| `WishlistModel.RemovePresentCount` | assets/wishlist.js:47 | on a list with unique ids, removing a present id removes exactly one entry |
| `WishlistModel.RemoveKeepsOthers` | assets/wishlist.js:47 | removing one id does not change membership of any other id |
| `WishlistModel.AddThenRemoveRestores` | assets/wishlist.js:32-47 | adding an absent id then removing it gives back the original list |
| `WishlistModel.TogglePreservesNoDuplicates` | assets/wishlist.js:54-60 | toggle keeps ids unique |
| `WishlistModel.ToggleTwiceMembership` | assets/wishlist.js:54-60 | toggling the same id twice restores its membership |
| `WishlistModel.ToggleTwiceFromAbsent` | assets/wishlist.js:54-60 | toggling an absent id twice restores the list exactly |
| `WishlistModel.ToggleTwiceFromPresent` | assets/wishlist.js:54-60 | toggling a present id twice moves it to the end with the new time and metadata |
| `WishlistCodec.Encode` | assets/wishlist.js:26 | the stored text is never empty, so it is never taken for "missing" |
| `WishlistCodec.DecodeEncode` | assets/wishlist.js:17-26 | parsing the stored text gives back the saved list |
| `WishlistCodec.DecodeRejectsNonList` | assets/wishlist.js:17-20 | in the stand-in encoding, text that does not start with `[` fails to parse |
| `WishlistView.OrElse` | assets/wishlist.js:113-115 | the falsy default (`value or fallback`) yields the fallback for a missing or empty value, the value otherwise |
| `WishlistView.GetProductData` | assets/wishlist.js:103-120 | no product context gives `{}`. Otherwise: the title is the trimmed title text, or "Product" when it is missing or blank, so it is never empty; the price is the trimmed price text, or "" when it is missing or blank, and has no leading whitespace; the image is the image `src`, or ""; the url is the path |
| `WishlistView.ButtonStateFor` | assets/wishlist.js:122-136 | `data-wishlist-added` is "true" exactly when the product is listed; the aria-label and text offer removal when listed and adding otherwise |
| `WishlistView.ToggleFlipsButton` | assets/wishlist.js:54-60 | after a toggle, the button's flag, aria-label and text all change |
| `WishlistView.HeaderStateFor` | assets/wishlist.js:139-152 | the badge is displayed exactly when the count is positive; badge text and `data-count` are non-empty decimal digits without a leading zero whose value is the count, which by `Text.DecimalCanonical` is `String(count)` |
| `WishlistStore.Loaded` | assets/wishlist.js:14-22 | a missing key or an empty stored value loads as `[]`; a non-empty load is the parse of the stored value |
| `WishlistStore.Persisted` | assets/wishlist.js:24-30 | after a save the key holds the encoded list, unless the write fails and nothing changes; every other key keeps its value |
| `WishlistStore.LoadAfterSave` | assets/wishlist.js:14-30 | what a save writes loads back as the same list |
| `WishlistStore.LoadFallsBackToEmpty` | assets/wishlist.js:14-22 | a missing key, an empty value or unparsable text loads as `[]` |
| `WishlistStore.LoadIgnoresOtherKeys` | assets/wishlist.js:16 | writes under other keys do not change what the wishlist loads |
| `WishlistStore.LoadCorruptExample` | assets/wishlist.js:18-21 | the corrupt stored value `{not a list` loads as `[]` |
| `WishlistStore.Storage.GetItem` | assets/wishlist.js:16 | `getItem` gives the stored value, or null for a missing key |
| `WishlistStore.Storage.SetItem` | assets/wishlist.js:26 | `setItem` stores the value under the key, or throws and changes nothing |
| `WishlistStore.WishlistManager.constructor` | assets/wishlist.js:2-6 | the list starts as what the storage holds under `shopify_wishlist` |
| `WishlistStore.WishlistManager.LoadWishlist` | assets/wishlist.js:14-22 | the result is the parsed stored list, or `[]` |
| `WishlistStore.WishlistManager.SaveWishlist` | assets/wishlist.js:24-30 | the key holds the encoded list afterwards, unless the write failed and storage is unchanged; when writable, storage and memory agree |
| `WishlistStore.WishlistManager.IsInWishlist` | assets/wishlist.js:62-64 | true exactly when some entry has the id |
| `WishlistStore.WishlistManager.GetWishlistCount` | assets/wishlist.js:66-68 | the count is the list length, and is 0 exactly when no id is listed |
| `WishlistStore.WishlistManager.AddToWishlist` | assets/wishlist.js:32-44 | the new list is `AddEntry` of the old one; the id is present; the count grows by one exactly when it was absent; storage is written only then, and then matches memory when it is writable (a failed write leaves storage unchanged); unique ids stay unique |
| `WishlistStore.WishlistManager.RemoveFromWishlist` | assets/wishlist.js:46-52 | the new list is the filtered old one; the id is absent; an absent id changes nothing; with unique ids the count drops by one; storage is always written, and matches memory when it is writable (a failed write leaves storage unchanged) |
| `WishlistStore.WishlistManager.ToggleWishlist` | assets/wishlist.js:54-60 | membership of the id inverts; storage is written on both branches, and matches memory when it is writable (a failed write leaves storage unchanged); unique ids stay unique |
| `WishlistStore.WishlistManager.ClearWishlist` | assets/wishlist.js:74-79 | the list is empty, the count is 0, and the empty list is written |
| `WishlistStore.WishlistManager.OnWishlistClick` | assets/wishlist.js:83-91 | a click toggles the product with the metadata scraped from the page and writes the list; storage matches memory when it is writable (a failed write leaves storage unchanged) |
| `WishlistStore.WishlistManager.OnStorageEvent` | assets/wishlist.js:94-100 | the list reloads from storage exactly when the event key is `shopify_wishlist`; any other key (or none) leaves it unchanged |
| `WishlistStore.TabsConverge` | assets/wishlist.js:94-99 | a click in one tab followed by the storage event in another leaves both tabs with the same list, when the shared storage is writable |
| `FileUpload.AcceptList` | assets/custom-file-upload.js:89 | the accept list has one entry more than the attribute has commas |
| `FileUpload.AcceptListShape` | assets/custom-file-upload.js:89 | each entry is the trimmed comma-separated piece: no comma, no surrounding whitespace |
| `FileUpload.Extension` | assets/custom-file-upload.js:94 | the extension is no longer than the name and holds no dot (see also `ExtensionIsAfterLastDot`) |
| `FileUpload.ExtensionIsAfterLastDot` | assets/custom-file-upload.js:94 | the extension is the lower-cased text after the last dot |
| `FileUpload.ExtensionWithoutDot` | assets/custom-file-upload.js:94 | a name without a dot is, lower-cased, its own extension |
| `FileUpload.BaseType` | assets/custom-file-upload.js:107 | `split('/')[0]` is the prefix of the entry before its first `/`, or the whole entry, and holds no `/` |
| `FileUpload.EntryMatches` | assets/custom-file-upload.js:99-116 | a wildcard entry only matches a MIME type with `/` right after the entry's base type; the three rules are stated by `ExtensionEntryRule`, `WildcardEntryRule` and `ExactEntryRule` |
| `FileUpload.ExtensionEntryRule` | assets/custom-file-upload.js:99-104 | an entry starting with `.` matches exactly when the extension equals the rest of the entry, even if it contains `*` |
| `FileUpload.WildcardEntryRule` | assets/custom-file-upload.js:105-111 | a `*` entry matches exactly the MIME types that start with the entry's text before its first `/`, then `/` |
| `FileUpload.ExactEntryRule` | assets/custom-file-upload.js:112-116 | any other entry matches only the identical MIME type |
| `FileUpload.UpperCaseExtensionNeverMatches` | assets/custom-file-upload.js:94-101 | an extension entry with an ASCII capital matches no file, because only the file side is lower-cased |
| `FileUpload.DottedExtensionNeverMatches` | assets/custom-file-upload.js:94-101 | an extension entry with a second dot (`.tar.gz`) matches no file |
| `FileUpload.Accepts` | assets/custom-file-upload.js:96-118 | a file is valid exactly when some entry of the accept list matches its MIME type and extension |
| `FileUpload.AnyEntryMatchesIff` | assets/custom-file-upload.js:96-118 | a file is valid exactly when some entry matches it |
| `FileUpload.RejectedExactly` | assets/custom-file-upload.js:91-123 | the rejected files are exactly the invalid ones, and rejection keeps input order |
| `FileUpload.Warning` | assets/custom-file-upload.js:120 | the warning is "File ", the file name, then " is not of an accepted type", so the name can be read back |
| `FileUpload.Warnings` | assets/custom-file-upload.js:119-122 | there is one warning per rejected file |
| `FileUpload.WarningsAt` | assets/custom-file-upload.js:119-122 | the k-th warning is the message naming the k-th rejected file |
| `FileUpload.WarningsStep` | assets/custom-file-upload.js:91-123 | checking one more file adds its warning at the end when it is invalid, and nothing when it is valid |
| `FileUpload.IsValidFile` | assets/custom-file-upload.js:94-118 | the scan of the accept list, stopping at the first matching entry, finds the file valid exactly when some entry matches it |
| `FileUpload.ValidateFileType` | assets/custom-file-upload.js:88-124 | every file is checked, and the warnings are exactly those of the invalid files, in input order |
| `FileUpload.FileNameText` | assets/custom-file-upload.js:65-77 | no file gives "No file chosen", one file its name; for two or more files the label is decimal digits without a leading zero followed by " files", and the digits read back as the count, so by `Text.DecimalCanonical` they are `String(files.length)` |
| `FileUpload.HandleFileSelection` | assets/custom-file-upload.js:61-86 | the label is "No file chosen", the file's name, or "n files"; the error message is hidden exactly when a file is chosen; validation runs only with an `accept` attribute |

## Left out

- `assets/rich-text-editor.js` is not part of this model. It only forwards to `document.execCommand`, `contentEditable` and `queryCommandState`.
- Notifications (`showNotification`) and their timers are left out: the DOM and `setTimeout` have no logic to state.
- DOM querying, attribute writes, hover listeners and `setupFileUploads`/`setupFileUpload` are left out. The model keeps only the values written (`ButtonStateFor`, `HeaderStateFor`, `HandleFileSelection`'s outputs).
- The error-message element may be missing. `hideError` means "hide it if it exists".
- `FileUpload.IsValidFile`: the inner `for … of acceptedTypes` loop with its `break` is a separate method called from the outer loop of `ValidateFileType`, not a loop nested inline. The behaviour is the same.
- `console` logging is left out. The validation warnings are kept as the method's output.
- The singleton `getInstance`, the `window.wishlistManager` global and the module-level `new CustomFileUpload()` are left out: they are only wiring.
- `getWishlist` is left out. It returns the internal array by reference, so callers could change it behind the store's back; the model does not capture that aliasing. For the same reason, `push` is modelled as reassignment.
- `WishlistCodec.Decode`/`Encode`: real JSON syntax is not modelled. The encoding is a stand-in that has the one property the store relies on: a save loads back as the same list, and malformed text fails to parse.
- A stored JSON value that parses but is not an array would be returned as-is by `JSON.parse`. The model treats it as a parse failure.
- Stored objects with extra or missing keys are not modelled.
- `getItem` throwing (storage disabled) is not modelled separately. In the source it reaches the same `catch` as a parse failure and also yields `[]`.
- The `{id, addedAt, ...productData}` spread is not modelled in full. It would let metadata keys override `id` and `addedAt`; the model restricts metadata to what `getProductData` produces (title, price, image, url), which cannot clash.
- `Text.Lower`: only ASCII `A`–`Z` are lower-cased. Full Unicode case mapping (including characters that map to several characters) is not modelled.
- The product id read from `dataset.productId` is taken as a string. A button without the attribute (`undefined`) is not modelled.
- Cross-tab races are left out. Two tabs writing at nearly the same time give last-write-wins behaviour of the browser storage, not logic of this code.
- The time is a parameter of the mutators, not read from a clock.
