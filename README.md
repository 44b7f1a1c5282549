# AI education-philosophy gallery: a Dafny model of its decision logic

The application lets a user compose a prompt, choose one of six styles and have an image
generated. It stores the image URL in the `generated_images` table and the image itself in the
`education-images` storage bucket, and it shows the stored images in a gallery. This project
models and proves three parts of it:

- **`cleanup-storage` edge function** (module `Cleanup`, `cleanup.dfy`). It turns each row's
  `image_url` into a bucket path, collects the referenced paths, and selects the bucket files
  no row refers to. The `.emptyFolderPlaceholder` entry is always spared. It removes the
  selection and answers with a status and a JSON body. The table read, the bucket listing
  and the remove call are inputs. The bucket is a set of names that a successful remove
  shrinks, so the model can state what a second run does.
- **Gallery page** (module `Gallery`, `gallery.dfy`). The focus view's `currentIndex` is a
  class whose methods are the next, previous and thumbnail handlers. The download handler's
  choice of content type and extension and its file name are functions. JavaScript strings
  are modelled as sequences of UTF-16 code units, because the page slices and rewrites the
  prompt unit by unit.
- **Generate page** (module `Generate`, `generate.dfy`). It covers the style table, the
  `trim`-based prompt guard and the style guard, the composed request prompt, the record
  handed to the insert, and the button's enabled state. The page state is a class. The
  endpoint's and the insert's replies are parameters of `HandleGenerate`.

Module `Common` (`common.dfy`) holds `Option` and a model of JavaScript's `includes` and
`indexOf` on sequences.

The cleanup function keeps no retention cap and does no pagination, no batching and no
reconciliation of table rows. It deletes only bucket files that no row refers to. It makes
one `list` call with limit 1000 and one `remove` call, and any failure ends the run with
status 500.

## Model

| member | source | states |
|---|---|---|
| Common.IndexFrom | supabase/functions/cleanup-storage/index.ts:42 | the position `split` cuts at is an occurrence of the separator at or after the start, and no earlier such position holds one; `None` means there is none |
| Cleanup.SplitSecond | supabase/functions/cleanup-storage/index.ts:42-43 | `split(sep)[1]` is defined exactly when the separator occurs; it is the text from the end of the first occurrence up to the next occurrence or the end of the string, and never contains the separator |
| Cleanup.MarkerImpliesSeparator | supabase/functions/cleanup-storage/index.ts:41-43 | a URL that passes the public-marker test always contains `/education-images/`, so `parts[1]` is defined |
| Cleanup.PathOf | supabase/functions/cleanup-storage/index.ts:38-46 | a row maps to a path exactly when its URL is present and contains the public marker; the path never contains `/education-images/` |
| Cleanup.PathOfSplits | supabase/functions/cleanup-storage/index.ts:41-43 | any URL holding the public marker yields the text after its first `/education-images/`, up to the next one or the end of the URL |
| Cleanup.PathOfPublicUrl | supabase/functions/cleanup-storage/index.ts:40-43 | a public URL ending in the marker followed by a name without another `/education-images/` yields exactly that name |
| Cleanup.ValidPaths | supabase/functions/cleanup-storage/index.ts:36-48 | every non-empty path some row yields is in the set; every member is non-empty, separator-free and yielded by some row; rows that are null, lack the marker or yield an empty path add nothing |
| Cleanup.Referenced | supabase/functions/cleanup-storage/index.ts:36-48 | a path is referenced exactly when the table data is not null and some row yields that non-empty path; null data gives the empty set |
| Cleanup.Selected | supabase/functions/cleanup-storage/index.ts:68-70 | a listed file is selected exactly when its name is unreferenced and is not the placeholder |
| Cleanup.SelectedAppend | supabase/functions/cleanup-storage/index.ts:68-70 | the selection is an order-preserving filter: selecting from a concatenation concatenates the selections |
| Cleanup.SelectedAllOrphans | supabase/functions/cleanup-storage/index.ts:68-70 | a listing made only of orphans is selected whole and in order |
| Cleanup.SelectedNoOrphans | supabase/functions/cleanup-storage/index.ts:68-70 | a listing without orphans selects nothing |
| Cleanup.SelectedTwice | supabase/functions/cleanup-storage/index.ts:68-70 | selecting again from a selection changes nothing |
| Cleanup.Names | supabase/functions/cleanup-storage/index.ts:89 | `pathsToDelete` has one entry per selected file, in order, each that file's name |
| Cleanup.HandleCleanup | supabase/functions/cleanup-storage/index.ts:26-125 | a table or listing error answers 500 with no remove call; an empty selection answers 200 with `validFiles` and `totalFiles` and no remove call; otherwise exactly the selected names in listing order go to `remove`, a remove error answers 500, and success answers 200 with the referenced count, the removed count and the removed paths |
| Cleanup.NeverRemovesReferenced | supabase/functions/cleanup-storage/index.ts:68-93 | a remove call is made only after both reads succeeded, and no name it receives is referenced by a row or is `.emptyFolderPlaceholder` |
| Cleanup.BucketAfter | supabase/functions/cleanup-storage/index.ts:90-97 | after the run, no requested path is left in the bucket; every other name stays, including every name when no remove call was made; nothing is added |
| Cleanup.CompleteListing | supabase/functions/cleanup-storage/index.ts:53-59 | a listing of a bucket of at most 1000 names shows every name in the bucket |
| Cleanup.SecondRunSkipsFirstListing | supabase/functions/cleanup-storage/index.ts:68-93 | after a successful run, a second run over the same table never selects a file the first run listed |
| Cleanup.SecondRunSelectsNothing | supabase/functions/cleanup-storage/index.ts:68-93 | idempotence: when the bucket fits in one listing, a second run after a successful one selects nothing and makes no remove call |
| Gallery.NextIndex | src/pages/Gallery.tsx:106-108 | `nextImage` stays in range: one step forward, wrapping from the last image to the first |
| Gallery.PrevIndex | src/pages/Gallery.tsx:110-112 | `prevImage` stays in range: one step back, wrapping from the first image to the last |
| Gallery.PrevUndoesNext | src/pages/Gallery.tsx:106-112 | going back after going forward returns to the same image |
| Gallery.NextUndoesPrev | src/pages/Gallery.tsx:106-112 | going forward after going back returns to the same image |
| Gallery.Advance | src/pages/Gallery.tsx:106-108 | any number of next clicks stays in range |
| Gallery.AdvanceOffset | src/pages/Gallery.tsx:106-108 | up to a full round, `k` next clicks move `k` places on, wrapping at most once |
| Gallery.FullCycle | src/pages/Gallery.tsx:106-108 | as many next clicks as there are images return to the starting image |
| Gallery.FocusView.constructor | src/pages/Gallery.tsx:19-21 | the page starts on the first of the loaded images |
| Gallery.FocusView.NextImage | src/pages/Gallery.tsx:106-108 | the next button moves `currentIndex` one step forward with wrap-around and keeps it in range |
| Gallery.FocusView.PrevImage | src/pages/Gallery.tsx:110-112 | the previous button moves `currentIndex` one step back with wrap-around and keeps it in range |
| Gallery.FocusView.SelectThumbnail | src/pages/Gallery.tsx:337 | a click on thumbnail `k` makes `k` the current image |
| Gallery.FocusView.Counter | src/pages/Gallery.tsx:292 | the counter shows the current position counted from one, never more than the number of images shown beside it |
| Gallery.ReplaceDisallowed | src/pages/Gallery.tsx:79 | the regular-expression replacement keeps each allowed unit and turns every other unit into `_`, one for one |
| Gallery.PromptPart | src/pages/Gallery.tsx:79 | the prompt part has length min(20, prompt length), holds only ASCII letters, digits, Hangul syllables U+AC00–U+D7A3 or `_`, keeps the prompt's allowed units in place and puts `_` for the rest |
| Gallery.PromptPartIdempotent | src/pages/Gallery.tsx:79 | rewriting a prompt part again changes nothing |
| Gallery.PromptPartKeepsCleanPrompt | src/pages/Gallery.tsx:79 | a prompt of at most 20 allowed units goes into the file name unchanged |
| Gallery.EffectiveContentType | src/pages/Gallery.tsx:67 | the type is the header unless missing or empty, then the blob's type unless empty, then `image/png`; it is never empty |
| Gallery.ExtensionFor | src/pages/Gallery.tsx:68-73 | the extension is `jpg` exactly when the type mentions `jpeg` or `jpg`, otherwise `webp` exactly when it mentions `webp`, otherwise `png` |
| Gallery.StandardTypeExtensions | src/pages/Gallery.tsx:67-73 | `image/jpeg`, `image/webp` and `image/png` get their own extensions, and a download with no type is saved as `png` |
| Gallery.Decimal | src/pages/Gallery.tsx:79 | the time stamp is written as decimal digits without a leading zero |
| Gallery.DecimalValue | src/pages/Gallery.tsx:79 | the digits of the time stamp denote the clock reading |
| Gallery.DotExtension | src/pages/Gallery.tsx:79 | the name ends in `.` followed by the extension's characters |
| Gallery.DownloadName | src/pages/Gallery.tsx:79 | the file name is `교육철학-`, then the prompt part, then `-` and the time stamp, then `.` and the extension; after the prefix it holds only allowed units, `_`, `-` and `.` |
| Gallery.HandleDownload | src/pages/Gallery.tsx:52-104 | a file is saved exactly when the fetch returned an OK response whose body was read; its name uses the extension chosen from the effective content type; a thrown fetch, a non-OK status or a rejected body read saves nothing |
| Generate.TrimStart | src/pages/Generate.tsx:30 | leading trimming never lengthens the text and leaves it starting with a non-space |
| Generate.TrimStartDrops | src/pages/Generate.tsx:30 | leading trimming removes only white space and keeps the rest as it was |
| Generate.TrimEnd | src/pages/Generate.tsx:30 | trailing trimming never lengthens the text and leaves it ending with a non-space |
| Generate.TrimEndDrops | src/pages/Generate.tsx:30 | trailing trimming removes only white space and keeps the rest as it was |
| Generate.Trim | src/pages/Generate.tsx:30 | a trimmed prompt neither starts nor ends with white space |
| Generate.TrimEmptyIffBlank | src/pages/Generate.tsx:30 | a prompt trims to nothing exactly when it is all white space |
| Generate.Validate | src/pages/Generate.tsx:30-46 | a click is turned away for the prompt exactly when the trimmed prompt is empty; for the style exactly when the prompt is not blank and no style is chosen; it is accepted exactly when both are present, so the prompt check comes first |
| Generate.ButtonEnabled | src/pages/Generate.tsx:209 | the button is enabled exactly when nothing is generating, the prompt is not blank and a style is chosen, which are the conditions the click handler itself checks |
| Generate.FindStyle | src/pages/Generate.tsx:51 | `find` gives nothing exactly when no entry has the key; otherwise the first entry with that key |
| Generate.StylesDistinct | src/pages/Generate.tsx:20-27 | no two of the six styles share a key or a suffix |
| Generate.OfferedStylesFound | src/pages/Generate.tsx:51 | every style the select box offers is found in the table as that very entry |
| Generate.FullPrompt | src/pages/Generate.tsx:51-52 | the request prompt is the user's prompt, `", "` and the chosen style's suffix; a key outside the table renders `undefined` |
| Generate.FullPromptTellsStylesApart | src/pages/Generate.tsx:51-52 | two different styles give two different request prompts for the same user prompt |
| Generate.SavedPromptIsNotRequestPrompt | src/pages/Generate.tsx:74-80 | the composed prompt sent to the endpoint strictly extends the user's own prompt, the one the record keeps, with `, ` right after it |
| Generate.GeneratePage.constructor | src/pages/Generate.tsx:12-16 | the page starts with an empty prompt and style, idle, with no image and no id |
| Generate.GeneratePage.SetPrompt | src/pages/Generate.tsx:184 | typing replaces the prompt |
| Generate.GeneratePage.SetStyle | src/pages/Generate.tsx:192 | choosing a style replaces the style key |
| Generate.GeneratePage.HandleGenerate | src/pages/Generate.tsx:29-105 | a blank prompt is rejected first, then a missing style, with no request and no state change; an accepted click sends the composed prompt, shows and saves the raw prompt, style key and URL only when the reply has an `imageUrl`, keeps the inserted id only when the insert succeeded, shows the success toast for an image and the failure toast for a thrown fetch, a non-OK status or a body that is not JSON, and ends with the button released |

## Left out

- CORS preflight (supabase/functions/cleanup-storage/index.ts:9-11) and response headers: they carry no decision.
- The Supabase client, its environment variables and console logging: they are service plumbing. The table read, the listing and the remove call are parameters.
- The ordering requested from the backend (`order` and `sortBy`): it is done by the service. A listing is any order of distinct bucket names.
- Folders in the bucket: `list('')` shows only the root level. The model's bucket is a flat set of names.
- The bucket after a failed remove call: the service does not say which files went, so `Cleanup.BucketAfter` assumes the call succeeded.
- Cleanup.SecondRunSelectsNothing: holds only for buckets of at most 1000 names. A larger bucket can show new orphans on the second listing. `Cleanup.SecondRunSkipsFirstListing` states what holds for every bucket size.
- URLs are matched as plain text. Percent-encoding and query strings are not decoded.
- The message text of thrown errors is kept only in the cleanup's `ErrorBody`. Gallery download failures and Generate toasts are tags, without their Korean text.
- Gallery.FocusView.NextImage: requires at least one image. With none, the source computes `NaN`, but the buttons are only rendered for more than one image (src/pages/Gallery.tsx:271).
- The grid/focus toggle, `selectedImage`, `isLoading` and the date formatting of the gallery: display only.
- `fetchImages` (src/pages/Gallery.tsx:31-50): the service call is a parameter. The constructor receives the rows it stored, or an empty list after a failure.
- `Date.now()` is the parameter `now`. The DOM anchor, `createObjectURL`, `setTimeout` clean-up and toasts are browser side effects.
- Generate.GeneratePage.HandleGenerate: states `isGenerating` only before and after the click. Its value while the requests are pending is not modelled, since the calls are not interleaved.
- A JSON `imageUrl` that is not a string: only absent, empty and non-empty strings are modelled.
- The Generate page's download and share handlers, the landing page, the cleanup page, the `generate-image` proxy and the `download-image` function are not part of this model. They are UI or thin wrappers around external calls.
- The Generate and Cleanup modules treat strings as sequences of Unicode characters. Only the gallery's download name depends on UTF-16 units, so only it models them.
