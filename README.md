# Model registry and chat transcript of the Alpaca Core iOS chat demo

The demo chat app keeps two small in-memory stores. This project models both and proves properties about them.

- **`ModelRegistry`** is the catalogue of model files. It holds an append-only list of local `.gguf` paths (`modelPaths`). The paths come from the app bundle and the download directory at start-up, and from `register` after a download. It also holds a map from remote model name to download URL (`remotedModelPaths`), seeded with one entry. `models()` lists the names the user can pick: the last `/`-segment of every local path minus its last five characters (the `.gguf`), together with every remote name, without duplicates. `exists` and `getModelLocalPath` scan the local paths in registration order and match by substring containment, so the first path that merely contains the name wins.
- **`ChatViewModel`** is the chat transcript: an ordered list of `Message` values that the view model changes in place (append, clear, append a "Waiting" placeholder, remove the last message). The Send button appends the user's prompt and shows the placeholder. When the model's reply arrives, the placeholder is removed and the reply is appended.

Layout:

- `wrappers.dfy` (`Wrappers`): `Option`, Swift's `T?`.
- `strings.dfy` (`Strings`): Swift's `split(separator:)` with its default arguments (empty pieces are dropped), the last segment of a path, and substring containment.
- `registry.dfy` (`Registry`): the pure catalogue and lookup functions with their lemmas, and the `ModelRegistry` class whose methods are proved against them.
- `chat.dfy` (`Chat`): `Message`, the `ChatViewModel` class, and the Send-button sequence.

Facts about the program that the model keeps:
- Start-up scan errors are only logged (demo-llama-chat/ModelRegistry.swift:36-38).
- The download directory is created by `DownloadManager.init` (demo-llama-chat/DownloadManager.swift:44-48), not by the registry.
- The registry stores only the path list and the name-to-URL map.
- `exists` and `getModelLocalPath` match by substring. `Registry.PrefixNameFalsePositive` shows the resulting false positive.

Neither `Exists` nor `GetModelLocalPath` has a `modifies` clause, so Dafny checks that they change no state.

## Model

| member | source | states |
|---|---|---|
| `Strings.Split` | demo-llama-chat/ModelRegistry.swift:49 | every piece of a split path is non-empty and free of the separator |
| `Strings.SplitFrom` | demo-llama-chat/ModelRegistry.swift:49 | the same for a split resumed in the middle of a piece; proved from the recursive calls' contracts |
| `Strings.SplitAround` | demo-llama-chat/ModelRegistry.swift:49 | a separator splits a string into the pieces before it followed by the pieces after it |
| `Strings.SplitSingle` | demo-llama-chat/ModelRegistry.swift:49 | a non-empty string with no separator is exactly one piece |
| `Strings.SplitEmpty` | demo-llama-chat/ModelRegistry.swift:49 | a split has no pieces if and only if the string is all separators |
| `Strings.SplitLast` | demo-llama-chat/ModelRegistry.swift:49 | the last piece of a split starts at the beginning of the string or right after a separator, and only separators follow it |
| `Strings.LastSegment` | demo-llama-chat/ModelRegistry.swift:49 | `split("/").last` is a non-empty, slash-free segment at the start of the path or right after a slash, with only slashes after it; it is nil exactly when the path is all slashes |
| `Strings.LastSegmentOfChild` | demo-llama-chat/DownloadManager.swift:73-74 | a slash-free file name appended to any directory is that path's last segment |
| `Strings.Contains` | demo-llama-chat/ModelRegistry.swift:63 | `s` contains `sub` exactly when `sub` occurs in `s` at some position (true of every `s` when `sub` is "", which callers exclude) |
| `Strings.ContainsSlice` | demo-llama-chat/ModelRegistry.swift:63 | every slice of a path is contained in it, so `contains` finds it |
| `Registry.HasModelName` | demo-llama-chat/ModelRegistry.swift:49-50 | the condition under which `split("/").last!` and `removeLast(5)` do not trap; it implies the path holds some character other than `/` |
| `Registry.IsModelFile` | demo-llama-chat/ModelRegistry.swift:31 | the `.gguf` extension filter of the start-up scans, taken as a precondition; every model file can be named |
| `Registry.DerivedName` | demo-llama-chat/ModelRegistry.swift:49-51 | the listed name is a prefix of the last segment, five characters shorter, slash-free; for a model file, name + ".gguf" is the segment |
| `Registry.DerivedNameOfModelFile` | demo-llama-chat/ModelRegistry.swift:49-50 | the path `dir/N.gguf` (N slash-free) can be named, is listed as exactly N, and is a model file if and only if N is non-empty |
| `Registry.DerivedNames` | demo-llama-chat/ModelRegistry.swift:48-52 | the mapped list has one derived name per path, in the same order |
| `Registry.Catalog` | demo-llama-chat/ModelRegistry.swift:47-58 | the catalogue holds every derived local name and every remote key, and nothing else |
| `Registry.CatalogRegister` | demo-llama-chat/ModelRegistry.swift:43-58 | registering a path adds exactly its derived name to the catalogue; a duplicate path changes nothing |
| `Registry.FirstMatch` | demo-llama-chat/ModelRegistry.swift:72-81 | the first-match index is None if and only if no path contains the name; otherwise that path contains it and no earlier one does |
| `Registry.FirstMatchAppend` | demo-llama-chat/ModelRegistry.swift:43-45 | appending a path never changes an existing first match; without one, the new path is the match exactly when it contains the name |
| `Registry.RegisteredSlicesExist` | demo-llama-chat/ModelRegistry.swift:61-70 | after `register(p)`, every substring of `p` has a match, so `exists` holds for it |
| `Registry.PrefixNameFalsePositive` | demo-llama-chat/ModelRegistry.swift:61-70 | a registered `.../llama-7b-v2.gguf` is the match for `llama-7b` |
| `Registry.PrefixNameNotListed` | demo-llama-chat/ModelRegistry.swift:47-58 | with only `/models/llama-7b-v2.gguf` registered, `llama-7b` is not a listed name, so the match above is a false positive |
| `Registry.OnlyFileNameListed` | demo-llama-chat/ModelRegistry.swift:47-58 | with one local file `dir/N.gguf` and no remote entries, no name other than N is listed |
| `Registry.DownloadedPath` | demo-llama-chat/DownloadManager.swift:73-74 | the stored download keeps the last segment of the request URL as its file name |
| `Registry.DefaultUrlFileName` | demo-llama-chat/ModelRegistry.swift:11 | the default remote URL's file name is the default remote name plus ".gguf" |
| `Registry.DefaultDownloadMatchesRemoteName` | demo-ai-chat/ModelSelectorView.swift:64-75 | once downloaded and registered, the default model is listed under its remote name: the catalogue is unchanged and the name now has a local match |
| `Registry.RegisterDownloadedRemote` | demo-ai-chat/ModelSelectorView.swift:55-75 | registering `dir/N.gguf` for a remote name N leaves the catalogue unchanged and gives N a local match; if N had none before, it resolves to the new path |
| `Registry.ModelRegistry.constructor` | demo-llama-chat/ModelRegistry.swift:10-41 | local paths are the bundled ones followed by the download-directory listing (none if reading it failed); the remote map is the single default entry; every path can be named |
| `Registry.ModelRegistry.Register` | demo-llama-chat/ModelRegistry.swift:43-45 | the path is appended at the end, earlier entries and the remote map unchanged |
| `Registry.ModelRegistry.Models` | demo-llama-chat/ModelRegistry.swift:47-59 | the returned list has no duplicates and holds exactly the catalogue's names |
| `Registry.ModelRegistry.Exists` | demo-llama-chat/ModelRegistry.swift:61-70 | true if and only if some local path contains the name |
| `Registry.ModelRegistry.GetModelLocalPath` | demo-llama-chat/ModelRegistry.swift:72-81 | the first path in registration order that contains the name, a member of the list; nil if and only if no path contains it |
| `Chat.ChatViewModel.constructor` | demo-llama-chat/ChatScreenView.swift:48-49 | the transcript starts empty |
| `Chat.ChatViewModel.NewMessage` | demo-llama-chat/ChatScreenView.swift:6-10 | a new message carries the given text and sender and an id never handed out before |
| `Chat.ChatViewModel.SendMessage` | demo-llama-chat/ChatScreenView.swift:51-54 | exactly one message with the given text and sender is appended; earlier messages unchanged; ids stay distinct |
| `Chat.ChatViewModel.ClearMessages` | demo-llama-chat/ChatScreenView.swift:56-58 | the transcript is empty, whatever it held |
| `Chat.ChatViewModel.AddWaitingMessage` | demo-llama-chat/ChatScreenView.swift:60-62 | exactly one "Waiting" message from the model is appended; nothing else changes |
| `Chat.ChatViewModel.RemoveWaitingMessage` | demo-llama-chat/ChatScreenView.swift:64-66 | on a non-empty transcript, the last message (whatever its text) is removed and the prefix kept |
| `Chat.ShowAndHideWaiting` | demo-llama-chat/ChatScreenView.swift:60-66 | adding the placeholder and then removing it restores the transcript; one id is used up |
| `Chat.SubmitMessage` | demo-llama-chat/ChatScreenView.swift:129-142 | a non-empty prompt leaves the transcript as the old one plus the user's message and the reply; an empty prompt changes neither the transcript nor the id counter |

## Left out

- `Registry.ModelRegistry.Exists`: requires a non-empty name. Whether Swift's `String.contains("")` is true depends on the library version. The only caller that can pass a user choice checks for "" first (demo-ai-chat/ModelSelectorView.swift:55).
- `Registry.ModelRegistry.GetModelLocalPath`: requires a non-empty name, because `contains("")` is version dependent. Its only caller (demo-llama-chat/ChatScreenView.swift:89-92) does not check for "". There `selectedModel` starts as "" (demo-llama-chat/ChatScreenView.swift:72) and changes only to a menu entry taken from `models()`. Such an entry is "" only if some registered path's last segment is exactly five characters long.
- `Registry.ModelRegistry.Models`: the order of the returned array is left arbitrary, as Swift's `Set` leaves it. Calling it requires every path to have a last segment of at least five characters, because `removeLast(5)` and the forced unwrap trap otherwise.
- `Registry.ModelRegistry.constructor`: the bundle and document-directory scans are file-system I/O. They become two parameters. The extension filter becomes a precondition that every path is a `.gguf` model file. Printing file sizes and logging are not modelled. Neither are the log lines printed by `exists` and `getModelLocalPath` (demo-llama-chat/ModelRegistry.swift:64, 68, 75, 79).
- Strings are sequences of Unicode scalar values. Swift works on grapheme clusters in four places the model does not follow: `removeLast(5)` counts them, `split` matches the separator by them, and `contains` and the deduplicating `Set` in `models()` compare strings by canonical equivalence. Both views agree on the ASCII file names the app handles.
- `Registry.DownloadedPath`: splits the whole URL string, not the URL's parsed path. The two have the same last segment when the URL has no query or fragment and its path has at least one non-slash segment, which holds for the remote URLs in use. For a URL whose path has no such segment, such as `https://host/` (path "/"), the source traps at demo-llama-chat/DownloadManager.swift:74, while the model takes "host".
- The rest of the download manager: URLSession transfers, delegate callbacks, float progress, file moves, directory creation, `fileSize` and `cancelDownloadTask`. All of these are I/O or asynchronous.
- The model selector view: view state, a static snapshot of `models()`, the download button and float percentages. Its only effect on the registry, registering the downloaded path, is covered by `Registry.RegisterDownloadedRemote`.
- The chat screen's model-selection handler (demo-llama-chat/ChatScreenView.swift:89-103). It clears the transcript and posts a greeting only after the external inference engine creates an instance, and that engine is not part of this model.
- The inference engine calls (ChatInference.swift), the reply text (a parameter of `Chat.SubmitMessage`), and the views, typing indicator, export sheet and app shell.
- `Chat.SubmitMessage`: the two `Task` blocks run concurrently with the UI, and the model runs them in sequence. Interleaved sends, where `removeWaitingMessage` could drop another message, are not modelled. Neither are the view flags `isWaitingResponse` and the text-field reset.
- `Chat.ChatViewModel.NewMessage`: a counter in the view model stands for `UUID()`. Distinctness holds for the ids that model hands out, not for UUIDs in general.
