# Myth writing app: a Dafny model of its editor and workspace logic

Myth is a React/Electron app for writing books. Its rich-text engines (tiptap
in the main editor, BlockNote in the alternative editor) are third-party
libraries. This project models the app's own logic around them, as pure
functions over immutable data:

- **Tabs node** (`tabs.dfy`, module `Tabs`): the tab list and active index
  of the tabbed container node, the handlers of its view, the attribute
  defaults and the `insertTabs` command. The invariant is that the active
  index stays inside a non-empty list.
- **Slash menu** (`command_list.dfy`, `slash_command.dfy`):
  - the fifteen-command catalogue and its case-insensitive prefix filter;
  - grouping by section and flattening into one list;
  - cyclic Up/Down/Enter navigation and the scroll-into-view arithmetic;
  - what each command does once chosen, recorded as a trace of editor
    operations, dialogs awaited and toasts shown.
- **Dialog bridge** (`dialog_bridge.dfy`): the text-input and image dialogs
  of the editor. Each has one slot holding the resolver of the promise a
  command awaits. Also image-path validation and `myth://` path
  normalization.
- **Table overlay and context menu** (`overlay.dfy`, module
  `EditorOverlay`): the add-row/add-column overlay position and the
  right-click table menu.
- **Toasts** (`notify.dfy`): the notification records the editor raises.
- **BlockNote helpers** (`myth_editor.dfy`): the locale of the alert
  block's labels, the "slash searching" state, and where the alert item
  joins the slash menu.
- **Table of contents** (`toc.dfy`): headings extracted from the
  document's JSON, and the label each one shows.
- **Book workspace**:
  - `book_context.dfy`: start-up selection, switching, adding and saving
    books;
  - `home_page.dfy`: to-dos, inspirations, the greeting, the user name and
    the status badges of the book's stories;
  - `book_switcher.dfy`: the book carousel's scroll index and two-click
    rule.
- **Shared helpers**: `wrappers.dfy` (`Option`, `Result`) and `text.dfy`
  (ASCII case mapping, whitespace trimming, decimal numerals).

How JavaScript behaviour is represented:

- Anything the environment supplies is a parameter:
  - the result of a library call (an editor chain's boolean, a table
    command's result);
  - the file store (a map from a book's folder to its data);
  - the clock, the user name, and the file the user picked.
- A JavaScript `null` is `None`. A value read through `||` is modelled with
  its falsy cases written out: a missing active index reads as 0, an empty
  string counts as absent.
- A thrown error is an `Err` of a `Result`.
- A promise is a token. Resolving it is an explicit `Resolution` event.
  This makes "resolved at most once" a statement about a run of events.

## Behaviour worth noting

- **A cancelled dialog command still deletes its trigger.** The
  asynchronous slash commands (Image, Embed HTML, Embed Webpage) delete the
  typed `/query` before awaiting their dialog. A cancelled dialog leaves the
  trigger text deleted and inserts nothing
  (`SlashCommand.CancelledDialogStillDeletes`).
- **An overwritten input request never resolves.** A second `requestInput`
  while one is pending overwrites the stored resolver, and the first
  promise is never resolved (`DialogBridge.OverwrittenInputNeverResolves`).
- **An invalid Electron pick is not re-prompted.** Under Electron, an image
  path with a disallowed extension resolves `null` at once with an error
  toast. Only the browser file input keeps the dialog open with an inline
  error (`DialogBridge.RequestImage`, `DialogBridge.ChooseFile`).
- **A chosen file shows only once it has loaded.** The browser file input
  validates the name at once but sets the preview in the file reader's
  later callback, which updates the dialog even after a cancel
  (`DialogBridge.ChooseThenLoad`).
- **Add row/column always report success.** The buttons raise a success
  toast whatever the table command returned, while the context menu
  reports a failure (`EditorOverlay.FailedAddReportsSuccess`).

## Model

| member | source | states |
|---|---|---|
| Tabs.SafeIndex | src/components/editor/extensions/tabs.jsx:7-11 | For a non-negative active index and a non-empty list, the displayed index lies in the list. It is 0 for an empty list, the active index itself when that is in range, and the last index when the active index is past the end. |
| Tabs.ActiveTab | src/components/editor/extensions/tabs.jsx:14 | A tab is shown exactly when the list is non-empty. It is the tab at the displayed index, or the first tab when the stored index is negative. |
| Tabs.Seed | src/components/editor/extensions/tabs.jsx:16-20 | An empty list is replaced by exactly one empty tab with active index 0; a non-empty bag is left as it is. |
| Tabs.Select | src/components/editor/extensions/tabs.jsx:29-31 | Selecting keeps the list and sets the active index; an in-range index becomes the displayed one. |
| Tabs.TitleChange | src/components/editor/extensions/tabs.jsx:33-38 | Only the title of the tab at the index changes. The length, the other tabs, that tab's content and the active index are kept. |
| Tabs.ContentChange | src/components/editor/extensions/tabs.jsx:40-45 | Only the content of the tab at the index changes. The length, the other tabs, that tab's title and the active index are kept. |
| Tabs.AddTab | src/components/editor/extensions/tabs.jsx:47-51 | One empty tab is appended after the unchanged old tabs, and the active index becomes the new last index. |
| Tabs.RemoveAt | src/components/editor/extensions/tabs.jsx:55 | Filtering by position removes exactly the element at an in-range index and keeps the rest in order; an out-of-range index removes nothing. |
| Tabs.DeleteTab | src/components/editor/extensions/tabs.jsx:53-61 | If nothing would remain, the bag is unchanged. Otherwise the tab is removed and the active index becomes max(0, active-1) when the index is at or before it, else stays. |
| Tabs.InsertTabs | src/components/editor/extensions/tabs.jsx:169-177 | A missing or empty list becomes one empty tab, a non-empty list is kept, and the inserted node always has active index 0. |
| Tabs.CreationIsValid | src/components/editor/extensions/tabs.jsx:138-177 | The declared defaults, seeding an empty list, and `insertTabs` each produce a non-empty list with an in-range active index. |
| Tabs.HandlersPreserveValid | src/components/editor/extensions/tabs.jsx:29-61 | Select, title and content edits, add and delete, called with the index of a rendered tab, keep the active index in range. |
| Tabs.DeleteKeepsOthers | src/components/editor/extensions/tabs.jsx:53-60 | Deleting one of several tabs keeps the others in order. The active index still points at the same tab unless that tab was the one deleted. |
| Tabs.DeleteLastOfThree | src/components/editor/extensions/tabs.jsx:59-60 | Three tabs with active 2, deleting tab 2: the first two tabs remain, with active index 1. |
| Tabs.DeleteOnlyTabIsNoOp | src/components/editor/extensions/tabs.jsx:55-58 | The only remaining tab cannot be deleted: the bag is unchanged. |
| Notify.Outcome | src/components/editor/extensions/slash-command.jsx:54 | The toast is a success exactly when the operation succeeded, an error otherwise, with the matching message. |
| DialogBridge.RequestInput | src/components/editor/Editor.jsx:212-223 | The slot holds the new token, replacing any earlier one. The dialog opens with the request's title, placeholder, mode and default value. The image side is untouched and nothing resolves. |
| DialogBridge.EditInput | src/components/editor/Editor.jsx:554 | Typing sets the dialog's value; every other field of both dialogs, and both resolvers, are kept. |
| DialogBridge.ConfirmedValue | src/components/editor/Editor.jsx:225-232 | A multi-line value is returned as typed. A single-line value is trimmed. The result is null exactly when it would be empty, i.e. a single-line value that is all whitespace. |
| DialogBridge.ConfirmInput | src/components/editor/Editor.jsx:225-234 | The dialog closes and the slot is cleared. A promise is resolved exactly when one was stored, with the confirmed value. |
| DialogBridge.CancelInput | src/components/editor/Editor.jsx:236-242 | The dialog closes and the slot is cleared; a stored promise is resolved with null. |
| DialogBridge.AfterLastDot | src/components/editor/Editor.jsx:246 | The extension is a dot-free suffix of the name. Either it is the whole name, or a dot precedes it. |
| DialogBridge.IsValidImagePath | src/components/editor/Editor.jsx:244-251 | The lowered text after the last dot must be one of the six allowed extensions; its meaning is stated by ValidImagePathComplete and ValidImagePathSound. |
| DialogBridge.AfterLastDotIff | src/components/editor/Editor.jsx:246 | A dot-free string is the extension exactly when it is the whole name or ends the name after a dot. |
| DialogBridge.LowerKeepsDots | src/components/editor/Editor.jsx:246 | Taking the extension and lowering commute. |
| DialogBridge.ValidImagePathComplete | src/components/editor/Editor.jsx:244-251 | A name that, lowered, is an allowed extension or ends with a dot and one, is accepted. |
| DialogBridge.ValidImagePathSound | src/components/editor/Editor.jsx:244-251 | Every accepted name, lowered, is an allowed extension or ends with a dot and an allowed extension; the lemma returns that extension. |
| DialogBridge.AcceptsUpperCaseExtension | src/components/editor/Editor.jsx:244-251 | Any name ending in `.PNG` is accepted. |
| DialogBridge.RejectsTextFile | src/components/editor/Editor.jsx:244-251 | Any name ending in `.txt` is rejected. |
| DialogBridge.RejectsEmptyExtension | src/components/editor/Editor.jsx:244-251 | A name ending in a dot has an empty extension and is rejected. |
| DialogBridge.AcceptsBareExtension | src/components/editor/Editor.jsx:244-251 | With no dot the whole name is tested, so the name `png` is accepted. |
| DialogBridge.NormalizePath | src/components/editor/Editor.jsx:268-272 | A `file://` prefix is replaced by `myth://`. Any other path starting with '/' gets `myth://` in front. Every other path is kept, and a path is kept only in that case. |
| DialogBridge.NormalizePathIdempotent | src/components/editor/Editor.jsx:268-272 | A normalized path never starts with '/', and normalizing twice equals normalizing once. |
| DialogBridge.RequestImage | src/components/editor/Editor.jsx:253-290 | Under Electron, an empty pick resolves null, and a disallowed path resolves null with an error toast; neither opens the dialog. A valid path opens it on the normalized preview, with no file input. In the browser the dialog opens empty, with a file input. |
| DialogBridge.ConfirmImage | src/components/editor/Editor.jsx:292-302 | Without a preview the error is set, the dialog stays open and nothing resolves. With one, only `open` changes (the preview, error and file-input flag are kept), the slot is cleared and a stored promise resolves with the preview URL. |
| DialogBridge.CancelImage | src/components/editor/Editor.jsx:304-310 | Only `open` changes, the slot is cleared, and a stored promise is resolved with null. |
| DialogBridge.ChooseFile | src/components/editor/Editor.jsx:312-320 | No file changes nothing. A disallowed name sets the error and keeps the old preview. An allowed one changes nothing yet and starts reading exactly then. |
| DialogBridge.LoadFile | src/components/editor/Editor.jsx:321-329 | The loaded data URL becomes the preview and the error is cleared; open or closed, the rest of the state is kept. |
| DialogBridge.ChooseThenLoad | src/components/editor/Editor.jsx:312-330 | An allowed file shows once loaded. Before that a confirm behaves as if nothing was chosen. A load after a cancel fills the closed dialog and resolves nothing. |
| DialogBridge.Apply | src/components/editor/Editor.jsx:212-330 | Dispatches each event to its handler; the run-level properties below are stated over it. |
| DialogBridge.ApplyResolvesPending | src/components/editor/Editor.jsx:212-310 | Any handler resolves only a promise that was pending, or that it requested itself, and leaves it no longer pending; the two slots stay distinct. |
| DialogBridge.ResolvesAtMostOnce | src/components/editor/Editor.jsx:225-310 | Along any run of events in which every request uses a new token, no promise resolves twice. Only promises pending at the start or requested along the run resolve. |
| DialogBridge.OverwrittenInputNeverResolves | src/components/editor/Editor.jsx:214 | After a second `requestInput`, no later event resolves the first promise. |
| DialogBridge.ConfirmThenNothing | src/components/editor/Editor.jsx:229-242 | A second confirm or cancel on a dialog already confirmed or cancelled resolves nothing. |
| EditorOverlay.UpdateTableUI | src/components/editor/Editor.jsx:398-424 | The overlay exists exactly when the editor is ready and the cursor is in a table. Its edges are the table's edges relative to the container; its size is the table's own. |
| EditorOverlay.OverlayIgnoresScroll | src/components/editor/Editor.jsx:413-423 | Moving container and table by the same offset leaves the overlay unchanged. |
| EditorOverlay.OverlayKeepsSize | src/components/editor/Editor.jsx:416-423 | For a table rectangle whose size matches its edges, the overlay's edges are as far apart as its recorded width and height. |
| EditorOverlay.OpenContextMenu | src/components/editor/Editor.jsx:438-452 | A right-click in a table cell of a ready editor opens the menu at the pointer for that cell; any other right-click changes nothing. |
| EditorOverlay.ContextAction | src/components/editor/Editor.jsx:454-468 | With no open menu or no editor nothing happens. Otherwise the menu closes and one toast reports success exactly when the table command succeeded. |
| EditorOverlay.ActionClosesMenu | src/components/editor/Editor.jsx:454-468 | An action on an open menu reports once; a second action afterwards does nothing. |
| EditorOverlay.PressOutside | src/components/editor/Editor.jsx:499-508 | A mouse press outside the menu closes it; one inside keeps it. |
| EditorOverlay.MenuLifecycle | src/components/editor/Editor.jsx:438-545 | A right-click in a cell opens the menu at the pointer. A press inside keeps it; a press outside, the close button or an action then closes it, and after the close button an action does nothing. A right-click outside a cell leaves a closed menu closed. |
| EditorOverlay.CloseMenu | src/components/editor/Editor.jsx:545 | The menu's close button leaves no menu open, whatever was open before. |
| EditorOverlay.AddRowOrColumn | src/components/editor/Editor.jsx:426-436 | With an editor, a success toast naming the row or column is raised whatever the command returned; without one, nothing happens. |
| EditorOverlay.FailedAddReportsSuccess | src/components/editor/Editor.jsx:426-468 | For the same failed insertion, the context menu shows the error toast and the button a success toast. The button's toast does not depend on the result. |
| CommandList.SectionOf | src/components/editor/menus/CommandList.jsx:12 | An item's section is never empty: its own when non-empty, otherwise 'Other'. |
| CommandList.Sections | src/components/editor/menus/CommandList.jsx:11-18 | The section list has no duplicates. It holds every item's section, and only sections some item has. |
| CommandList.SectionsPrefix | src/components/editor/menus/CommandList.jsx:13-16 | The sections of a prefix of the items are a prefix of the sections of all items: sections appear in order of first occurrence. |
| CommandList.SectionsSnocNew | src/components/editor/menus/CommandList.jsx:13-16 | An item with a section not yet seen appends exactly that section. |
| CommandList.Group | src/components/editor/menus/CommandList.jsx:17 | A group holds only items of the input that belong to that section. |
| CommandList.GroupAppend | src/components/editor/menus/CommandList.jsx:17 | Grouping distributes over concatenation of the input, so each group keeps input order. |
| CommandList.ConcatIsFilterIn | src/components/editor/menus/CommandList.jsx:19 | Concatenating the groups of distinct sections gives, as a multiset, the items whose section is among them. |
| CommandList.Flat | src/components/editor/menus/CommandList.jsx:19 | The groups concatenated in section order; its meaning is stated by FlatIsPermutation, FlatIsStable and FlatStartsWithFirstSection. |
| CommandList.FlatIsPermutation | src/components/editor/menus/CommandList.jsx:19 | The flattened list holds exactly the input items, each as often as in the input, with the same length. |
| CommandList.FlatIsStable | src/components/editor/menus/CommandList.jsx:19 | Within every section, the flattened list keeps the input order. |
| CommandList.FlatStartsWithFirstSection | src/components/editor/menus/CommandList.jsx:11-19 | The first section is the first item's, and the flattened list starts with that whole group. |
| CommandList.Highlight | src/components/editor/menus/CommandList.jsx:37 | The highlighted position is below the item count, even after the list shrinks below an older selection; an in-range selection is itself. |
| CommandList.OnKeyDown | src/components/editor/menus/CommandList.jsx:60-78 | With no items every key is unhandled and changes nothing. Otherwise exactly Up, Down and Enter are handled; only Enter invokes, and it invokes the highlighted item. Up and Down land in range; other keys keep the selection. |
| CommandList.DownStep | src/components/editor/menus/CommandList.jsx:69-72 | Down moves the highlight one step forward, wrapping from the last item to the first. |
| CommandList.UpStep | src/components/editor/menus/CommandList.jsx:65-68 | Up moves the highlight one step back, wrapping from the first item to the last. |
| CommandList.UpDownInverse | src/components/editor/menus/CommandList.jsx:65-72 | Down then Up, and Up then Down, return to the highlighted item. |
| CommandList.PressDownCycles | src/components/editor/menus/CommandList.jsx:69-72 | Pressing Down k times advances the highlight by k modulo the item count. |
| CommandList.EnterInvokesHighlighted | src/components/editor/menus/CommandList.jsx:73-76 | Enter is handled, keeps the selection, and invokes exactly the highlighted item. |
| CommandList.ScrollAdjust | src/components/editor/menus/CommandList.jsx:52-56 | Above the view, the element is scrolled to its top. Below it, it is scrolled so its bottom meets the container's bottom. Otherwise the scroll position is kept. |
| CommandList.ScrollShowsElement | src/components/editor/menus/CommandList.jsx:52-56 | An element no taller than the container ends up fully visible, and the new position is the nearest to the old one among all positions that show it. |
| CommandList.ScrollSettles | src/components/editor/menus/CommandList.jsx:52-56 | A second adjustment changes nothing. |
| SlashCommand.Matches | src/components/editor/extensions/slash-command.jsx:224 | An item matches when its lowered title starts with the lowered query. |
| SlashCommand.Filter | src/components/editor/extensions/slash-command.jsx:224 | An item is kept exactly when its lowered title starts with the lowered query. |
| SlashCommand.FilterAppend | src/components/editor/extensions/slash-command.jsx:224 | Filtering distributes over concatenation, so it keeps catalogue order. |
| SlashCommand.FilterEmptyQuery | src/components/editor/extensions/slash-command.jsx:224 | The empty query keeps every item. |
| SlashCommand.EmptyQueryListsAll | src/components/editor/extensions/slash-command.jsx:33-224 | With nothing typed after the trigger, all fifteen commands are offered in catalogue order. |
| SlashCommand.MatchesShorterQuery | src/components/editor/extensions/slash-command.jsx:224 | An item matching an extended query matches the shorter one. |
| SlashCommand.FilterNarrows | src/components/editor/extensions/slash-command.jsx:224 | Filtering on an extended query equals filtering the previous result again. |
| SlashCommand.FilterIgnoresCase | src/components/editor/extensions/slash-command.jsx:224 | Lowering the query does not change the result. |
| SlashCommand.Perform | src/components/editor/extensions/slash-command.jsx:38-221 | Ask AI only shows an info toast. A block command deletes the trigger and applies its operation in one chain, moves the cursor, and reports its outcome. A dialog command first deletes the trigger, then awaits its dialog, and inserts only on a truthy answer. Tabs inserts one empty tab and reports success. |
| SlashCommand.TriggerDeletedFirst | src/components/editor/extensions/slash-command.jsx:156-211 | Every command except Ask AI deletes the `/query`, as the first operation of its first action, before any dialog. Ask AI leaves it. |
| SlashCommand.InsertsIff | src/components/editor/extensions/slash-command.jsx:156-211 | A command inserts content exactly when it is not Ask AI and, for a dialog command, the dialog returned a truthy value. |
| SlashCommand.CancelledDialogStillDeletes | src/components/editor/extensions/slash-command.jsx:183-194 | A cancelled dialog leaves the trigger deleted and nothing inserted. |
| SlashCommand.BlockCommandsReport | src/components/editor/extensions/slash-command.jsx:46-178 | Every block command ends with a toast that is a success exactly when its chain succeeded. |
| SlashCommand.ImageSrc | src/components/editor/extensions/slash-command.jsx:163 | A source is kept exactly when it does not start with '/'. Otherwise it becomes a `myth://` URL followed by the source itself. |
| SlashCommand.ImageSrcOfNormalized | src/components/editor/extensions/slash-command.jsx:160-166 | A source already normalized by the image dialog, or a data URL, is inserted unchanged. |
| SlashCommand.ImageSrcIdempotent | src/components/editor/extensions/slash-command.jsx:163 | Prefixing a local path once is enough: applying the rule twice equals applying it once. |
| SlashCommand.HeadingMessages | src/components/editor/extensions/slash-command.jsx:42-86 | The three heading commands report "已插入标题 1", "已插入标题 2" and "已插入标题 3". |
| SlashCommand.PopupKeyDown | src/components/editor/extensions/slash-command.jsx:263-270 | Escape hides the popup and is handled. Any other key goes to the list when it is mounted, and the list's answer is the popup's; otherwise it is not handled. |
| SlashCommand.MenuItems | src/components/editor/menus/CommandList.jsx:8-19 | The menu shows exactly the filtered commands, regrouped, each once. |
| SlashCommand.EnterRunsMatchingCommand | src/components/editor/extensions/slash-command.jsx:286-291 | Enter in a non-empty popup runs a command of the catalogue that matches the typed query. |
| MythEditor.AlertLabelsFor | src/components/MythEditor/MythEditor.jsx:25-55 | Chinese labels are chosen exactly when `lang` is a string whose lower case starts with "zh"; English otherwise. |
| MythEditor.LocaleExamples | src/components/MythEditor/MythEditor.jsx:24-26 | The default is Chinese. "zh" and "ZH" followed by any region are Chinese. A non-string value is English. |
| MythEditor.NonZhIsEnglish | src/components/MythEditor/MythEditor.jsx:26 | A tag not starting with 'z' or 'Z' gives English labels. |
| MythEditor.AlertItemFollowsLocale | src/components/MythEditor/MythEditor.jsx:107-119 | The alert item is keyed "alert" and joins the advanced group of its locale under the localized title and subtext, with "alert" among its aliases. Whatever the locale, it inserts an alert block of the warning type. |
| MythEditor.JoinText | src/components/MythEditor/MythEditor.jsx:95-99 | A block with no text items has empty text. |
| MythEditor.JoinTextAppend | src/components/MythEditor/MythEditor.jsx:95-99 | The text of a concatenation is the concatenation of the texts. |
| MythEditor.SlashSearching | src/components/MythEditor/MythEditor.jsx:88-103 | True exactly when the content is an inline array whose joined text is '/' followed by at least one character. |
| MythEditor.SlashSearchingIgnoresOtherInline | src/components/MythEditor/MythEditor.jsx:95-99 | A non-text inline item, wherever it sits, does not change the state. |
| MythEditor.SlashSearchingExamples | src/components/MythEditor/MythEditor.jsx:100 | A lone '/' is not searching. '/' followed by text, even in another item, is. An empty block is not. |
| MythEditor.LastInGroup | src/components/MythEditor/MythEditor.jsx:120-123 | Absent exactly when no item has the group. Otherwise it is an item of the group with no item of the group after it. |
| MythEditor.MergeAlert | src/components/MythEditor/MythEditor.jsx:120-130 | The merged menu is the default list with the alert item inserted at a point with no item of its group after it. That point is right after an item of its group, or the end when the group is absent. |
| MythEditor.MergeKeepsDefaults | src/components/MythEditor/MythEditor.jsx:124-130 | Removing the alert item from the merged menu gives the default items back, in order. |
| MythEditor.MergePlacement | src/components/MythEditor/MythEditor.jsx:125-129 | With no item of its group, the alert item comes last; otherwise it comes right after the last such item. |
| Toc.HeadingOf | src/App.jsx:14-19 | A heading entry is built exactly when the node has no child array or a non-empty one, and has attributes. The text is the first child's text, or '' with no children; the level is copied. An empty child array throws. |
| Toc.FromNodes | src/App.jsx:13-21 | Extraction yields at most one entry per top-level node. |
| Toc.ExtractHeadings | src/App.jsx:12 | A document without content has no headings. |
| Toc.Label | src/App.jsx:94 | The label is never empty. It is the heading text when that is non-empty, and "Untitled" when it is missing or empty. |
| Toc.HeadingNodes | src/App.jsx:13-14 | The reference list holds exactly the top-level nodes of type heading. |
| Toc.ExtractMatchesHeadingNodes | src/App.jsx:11-22 | Extraction succeeds exactly when every top-level heading is well formed. It then lists one entry per top-level heading node, in document order. |
| Toc.NestedNodesIgnored | src/App.jsx:13-14 | Replacing a non-heading top-level node, whatever it nests, by another non-heading node changes nothing. |
| Toc.UntitledHeadings | src/App.jsx:17 | A heading with no content has text '' and the label "Untitled", as does one whose first child has no text. |
| BookContext.InitialCtx | src/contexts/BookContext.jsx:9-17 | The context starts with no books, no open book, and the empty initial data. |
| BookContext.LoadBookData | src/utils/BookManager.js:142-155 | A readable folder yields its data; a missing or unreadable one yields nothing, as the store's `null` on a read error. |
| BookContext.SwitchBook | src/contexts/BookContext.jsx:48-62 | With readable data, the book becomes current, its data is loaded and its id remembered. Otherwise nothing changes. The book list is never touched. |
| BookContext.SwitchBookIdempotent | src/contexts/BookContext.jsx:48-62 | Switching to the same book twice equals switching once. |
| BookContext.FindById | src/contexts/BookContext.jsx:34 | Absent exactly when no book has the id; otherwise the first book with it. |
| BookContext.StartupChoice | src/contexts/BookContext.jsx:32-40 | A stored id picks the first book with that id, and nothing exactly when no book has it. No stored id picks the first book, if any. |
| BookContext.LoadBooks | src/contexts/BookContext.jsx:24-46 | A failed listing changes nothing. Otherwise the list is replaced, then the start-up choice, if any, is switched to. |
| BookContext.StaleIdOpensNothing | src/contexts/BookContext.jsx:33-37 | A stored id that matches no book opens nothing, even when books exist: there is no fallback to the first. |
| BookContext.ReopensLastBook | src/contexts/BookContext.jsx:32-55 | With unique ids, restarting after a successful switch reopens the same book. |
| BookContext.AddBook | src/contexts/BookContext.jsx:64-74 | A failed creation is passed on as an error. Otherwise the new book is appended at the end and switched to, and returned. |
| BookContext.Replace | src/contexts/BookContext.jsx:81-84 | Saving a part replaces exactly that field of the book data. |
| BookContext.ReplaceLaws | src/contexts/BookContext.jsx:81-84 | Saving the same part twice keeps the later value; saving two different parts commutes. |
| BookContext.SaveBookDataAsWritten | src/contexts/BookContext.jsx:76-88 | The code as written: with no open book nothing happens; otherwise the data is updated whether or not the write succeeded. |
| BookContext.Persist | src/utils/BookManager.js:157-170 | A successful write of a readable book's part updates that part on disk; a failed one changes nothing. |
| BookContext.AsWrittenLosesSync | src/contexts/BookContext.jsx:76-88 | After a failed write, the as-written save leaves the page showing data the store does not hold. |
| BookContext.SaveBookData | src/contexts/BookContext.jsx:76-88 | The corrected save updates the data only when there is an open book and the write succeeded. |
| BookContext.SaveKeepsSync | src/contexts/BookContext.jsx:76-88 | With the corrected save, the open book's data stays equal to its folder's, whether or not the write succeeds. |
| BookContext.SwitchBookSyncs | src/contexts/BookContext.jsx:51-56 | Switching to a readable book brings the context in agreement with the store. |
| HomePage.ListsOf | src/pages/HomePage.jsx:34-41 | Each of the seven lists is shown as stored when present, and read as empty when it, its settings or the whole data is missing. |
| HomePage.SaveShowsOnlyThatPart | src/pages/HomePage.jsx:34-41 | Saving a part changes only the lists it feeds. A list save replaces that list, a settings save replaces the settings lists, and an info save changes nothing shown. |
| HomePage.InitialListsEmpty | src/contexts/BookContext.jsx:11-17 | Before a book is opened, every list on the page is empty. |
| HomePage.ToggleTodo | src/pages/HomePage.jsx:52-57 | The length, order, ids and texts are kept; `completed` flips exactly on the to-dos with the id. |
| HomePage.ToggleTwice | src/pages/HomePage.jsx:52-55 | Toggling the same id twice restores the list. |
| HomePage.ToggleKeepsOthers | src/pages/HomePage.jsx:52-55 | To-dos with other ids are unchanged. |
| Text.TrimEmptyIffAllSpace | src/pages/HomePage.jsx:60 | A string trims to empty exactly when it is all whitespace. |
| HomePage.AddTodo | src/pages/HomePage.jsx:59-66 | A blank input saves nothing and changes nothing. Otherwise one to-do with the raw input, not completed, is appended at the end, and the input is cleared and closed. |
| HomePage.TimeStringRoundTrip | src/pages/HomePage.jsx:71 | The time reads as a non-empty hour numeral without leading zeros (midnight's hour is the single digit "0"), ':', then two minute digits; both numbers read back. |
| HomePage.MidnightTime | src/pages/HomePage.jsx:71 | Five past midnight is written "0:05"; "00:05" and ":05" do not read as that time. |
| HomePage.AddInspiration | src/pages/HomePage.jsx:68-77 | The same guard as for to-dos. The appended inspiration carries the raw text and the hour:minute time. |
| HomePage.AddTodoThroughContext | src/pages/HomePage.jsx:59-62 | Adding a to-do through a successful save makes the open book's to-dos the old ones plus exactly the new one. |
| HomePage.Greeting | src/pages/HomePage.jsx:99-105 | Hours [0,6), [6,12), [12,18) and [18,24) greet with 早上好, 上午好, 下午好 and 晚上好. |
| HomePage.GreetingByQuarter | src/pages/HomePage.jsx:100-104 | Two hours of a day get the same greeting exactly when they lie in the same six-hour quarter. |
| HomePage.DisplayName | src/pages/HomePage.jsx:105 | The first non-empty of USERNAME and USER, else "User", capitalized. The result is never empty. |
| HomePage.DisplayNameCapitalizes | src/pages/HomePage.jsx:105 | A lower-case login shows with its first letter upper-cased and the rest unchanged. |
| HomePage.StatusColor | src/pages/HomePage.jsx:79-86 | The badge of a story's status: the three known statuses get their fixed classes, and anything else gets the default. |
| HomePage.StatusColorsDistinct | src/pages/HomePage.jsx:79-86 | Each known status has a badge no other status shares. |
| BookSwitcher.ScrollTarget | src/components/BookSwitcher/BookSwitcher.jsx:25-36 | Card i is scrolled to i × 232 pixels: a 200-pixel card plus a 32-pixel gap. |
| BookSwitcher.RoundIndex | src/components/BookSwitcher/BookSwitcher.jsx:49-50 | The rounded index i satisfies 232i − 116 ≤ x < 232i + 116, i.e. Math.round with halves rounding up. |
| BookSwitcher.ScrollIndex | src/components/BookSwitcher/BookSwitcher.jsx:40-57 | The index is the rounded scroll position (halves rounding up) clamped to the cards: the rounded index when it lies in 0 ..= book count (the last being the new-book card), 0 below that and the book count above it. |
| BookSwitcher.ScrollIndexExamples | src/components/BookSwitcher/BookSwitcher.jsx:50-56 | Half-way between the first two cards (116 px) the second card is active, one pixel earlier the first; positions past either end clamp to the first or the new-book card. |
| BookSwitcher.ScrollIndexIsNearest | src/components/BookSwitcher/BookSwitcher.jsx:49-56 | The chosen card's scroll target is at least as close to the scroll position as any other card's. |
| BookSwitcher.ScrollRoundTrip | src/components/BookSwitcher/BookSwitcher.jsx:25-56 | Scrolling to a card makes that card the active one. |
| BookSwitcher.HandleScroll | src/components/BookSwitcher/BookSwitcher.jsx:40-62 | The active index is set to the scroll index, and reported changed exactly when it differs. |
| BookSwitcher.CardClick | src/components/BookSwitcher/BookSwitcher.jsx:69-76 | Clicking the active card opens its book. Clicking another only activates it and scrolls to it. |
| BookSwitcher.NewBookCardClick | src/components/BookSwitcher/BookSwitcher.jsx:78-85 | Clicking the active new-book card goes to the new-book page. Clicking it otherwise only activates it and scrolls to it. |
| BookSwitcher.TwoClicksOpen | src/components/BookSwitcher/BookSwitcher.jsx:69-98 | The first click opens only if the card was already active; a second click on the same card always opens it. |
| BookSwitcher.ApplyEffect | src/components/BookSwitcher/BookSwitcher.jsx:64-67 | Opening a book switches the context to it; the other effects leave the context alone. |
| BookSwitcher.FindIndex | src/components/BookSwitcher/BookSwitcher.jsx:16 | Absent exactly when no book has the id; otherwise the position of the first book with it. |
| BookSwitcher.InitialIndex | src/components/BookSwitcher/BookSwitcher.jsx:14-23 | When the open book is listed, the active index is the position of the first book with its id; otherwise the index stays. |
| BookSwitcher.InitialIndexAfterSwitch | src/components/BookSwitcher/BookSwitcher.jsx:14-23 | With unique ids, after switching to a listed book the carousel opens on that book's card. |
| BookSwitcher.AddBookShowsNewCard | src/contexts/BookContext.jsx:64-74 | Adding a book with a new id and readable data leaves the context in agreement with the store. The carousel then opens on the new book's card, the last before the new-book card. |
| BookSwitcher.CoverSrc | src/components/BookSwitcher/BookSwitcher.jsx:124-134 | No cover or an empty one shows the placeholder. A `file://` or `http` source is kept; anything else gets the `myth://` prefix. |
| BookSwitcher.CoverSrcSchemes | src/components/BookSwitcher/BookSwitcher.jsx:126 | Every shown cover has a `file://`, `http` or `myth://` source. For an absolute path it agrees with the editor's path normalization. |

## Left out

- The editor libraries (tiptap/ProseMirror, BlockNote), which are not part of this model:
  - document schema, parsing and serialization, transactions, undo/redo;
  - Suggestion plugin range tracking, BlockNote's `filterSuggestionItems`
    and locale dictionaries (`locales[lang] || locales.en`).
  
  Editor chains and table commands appear only as the boolean they return
  or as a recorded operation.
- DOM measurement and placement: bounding rectangles, `domAtPos`, the
  `offsetParent` walk and tippy popups. Rectangles and offsets are inputs.
  The pixel offsets of the table buttons are presentation.
- `localStorage`:
  - the editor's content save and reload effect is out;
  - only `lastBookId` is kept, as a field of the book context.
- Toast timers, `Date.now` and `Math.random` ids, and the clock: ids and
  times are parameters.
- `BookManager.js` file-system work: each call is a parameter holding what
  it returned, and the store is a map from folder to data.
- Deleting a book from the carousel needs `window.confirm` and the file
  system, so it is not modelled.
- The `loading` flag of the book context is UI-only.
- Clicking a menu item (`selectItem` with an item rather than an index)
  just passes the item on.
- The TOC's per-level indentation classes are presentation.
- The default `info` kind of the editor's `notify` is not modelled: every
  call site in the modelled code passes its kind.
- What the home page renders from a list (the chapter links, the world-view,
  story and character rows) is markup; the model stops at which list is
  shown (`HomePage.ListsOf`) and the story badge (`HomePage.StatusColor`).
- Text.Lower and Text.Trim: ASCII case mapping and ASCII whitespace only,
  not Unicode `toLowerCase`/`trim`.
- HomePage.DisplayName (Text.Capitalize): ASCII upper-casing only. Unicode
  `toUpperCase` maps letters such as "é" to "É", and can change the length
  ("ß" becomes "SS"); the model leaves every non-ASCII first letter as it is.
- BookSwitcher.ScrollIndex: whole-pixel scroll positions only. A fractional
  `scrollLeft` is not modelled.
- HomePage.TimeStringRoundTrip: stated for minutes below 60, the only values
  `getMinutes` returns.
- DialogBridge.RequestImage: the Electron picker's own extension filter is
  not modelled. The picked path is any string, and the app's validation is
  what is checked.

## Findings

| source | as written | input that shows it | evidently intended | confidence | as-written member | corrected member |
|---|---|---|---|---|---|---|
| src/contexts/BookContext.jsx:76-88 | `saveBookData` updates the open book's data after calling `BookManager.saveBookData` in a try block. That call (src/utils/BookManager.js:157-170) reports a failed write by returning `false` and never throws, so the update also happens when the write failed and the catch branch is dead. | A to-do added while the book folder is not writable: the page shows it, the folder does not hold it, and it is gone after the next switch or restart. | Update the data only when the write succeeded. | medium; not executed | BookContext.SaveBookDataAsWritten, BookContext.AsWrittenLosesSync | BookContext.SaveBookData, BookContext.SaveKeepsSync |
