/** The editor's slash menu: the command catalogue, its case-insensitive
    prefix filter, what each command does once chosen, and the key handling
    of the suggestion popup.

    Commands act on the document through editor chains; a chain is
    recorded here as the list of operations it runs (`Run`), so a command
    is described by the trace of actions it performs. An asynchronous
    command's trace depends on what its dialog resolved to. */
module SlashCommand {
  import opened Wrappers
  import opened Text
  import opened Notify
  import Tabs
  import DialogBridge
  import CommandList

  // ---------------------------------------------------------------------------
  // Catalogue
  // ---------------------------------------------------------------------------

  datatype Kind =
    | AskAi
    | Heading(level: nat)
    | BulletList
    | NumberedList
    | TodoList
    | Quote
    | CodeBlock
    | Table
    | Image
    | Divider
    | EmbedHtml
    | EmbedWebpage
    | TabsBlock

  datatype Item = Item(title: string, section: string, kind: Kind)

  /** The suggestion trigger. */
  const TriggerChar: char := '/'

  /** Every command, in catalogue order. */
  const Catalogue: seq<Item> := [
    Item("Ask AI", "AI", AskAi),
    Item("Heading 1", "Basic Blocks", Heading(1)),
    Item("Heading 2", "Basic Blocks", Heading(2)),
    Item("Heading 3", "Basic Blocks", Heading(3)),
    Item("Bullet List", "Basic Blocks", BulletList),
    Item("Numbered List", "Basic Blocks", NumberedList),
    Item("To-do List", "Basic Blocks", TodoList),
    Item("Quote", "Basic Blocks", Quote),
    Item("Code Block", "Advanced", CodeBlock),
    Item("Table", "Advanced", Table),
    Item("Image", "Media", Image),
    Item("Divider", "Basic Blocks", Divider),
    Item("Embed HTML", "Advanced", EmbedHtml),
    Item("Embed Webpage", "Advanced", EmbedWebpage),
    Item("Tabs", "Advanced", TabsBlock)
  ]

  function SectionName(i: Item): string { i.section }

  // ---------------------------------------------------------------------------
  // Filtering
  // ---------------------------------------------------------------------------

  /** The lowered title starts with the lowered query. */
  predicate Matches(i: Item, query: string) {
    Lower(query) <= Lower(i.title)
  }

  /** `items.filter(...)`: the items matching `query`, in order. */
  function Filter(items: seq<Item>, query: string): (r: seq<Item>)
    ensures |r| <= |items|
    ensures forall i :: i in r <==> i in items && Matches(i, query)
  {
    if |items| == 0 then []
    else (if Matches(items[0], query) then [items[0]] else []) + Filter(items[1..], query)
  }

  /** Filtering keeps order: it distributes over concatenation. */
  lemma {:induction false} FilterAppend(a: seq<Item>, b: seq<Item>, query: string)
    ensures Filter(a + b, query) == Filter(a, query) + Filter(b, query)
    decreases |a|
  {
    if |a| > 0 {
      assert (a + b)[1..] == a[1..] + b;
      FilterAppend(a[1..], b, query);
    } else {
      assert a + b == b;
    }
  }

  /** The empty query keeps every item. */
  lemma {:induction false} FilterEmptyQuery(items: seq<Item>)
    ensures Filter(items, "") == items
    decreases |items|
  {
    if |items| > 0 {
      FilterEmptyQuery(items[1..]);
    }
  }

  /** With nothing typed after the trigger, the menu offers all fifteen
      commands in catalogue order. */
  lemma EmptyQueryListsAll()
    ensures Filter(Catalogue, "") == Catalogue && |Catalogue| == 15
  {
    FilterEmptyQuery(Catalogue);
  }

  /** Typing more can only remove items: whatever matches an extended
      query matches the shorter one. */
  lemma MatchesShorterQuery(i: Item, query: string, more: string)
    requires Matches(i, query + more)
    ensures Matches(i, query)
  {
    LowerAppend(query, more);
  }

  /** Filtering on an extended query is filtering the previous result
      again. */
  lemma {:induction false} FilterNarrows(items: seq<Item>, query: string, more: string)
    ensures Filter(items, query + more) == Filter(Filter(items, query), query + more)
    decreases |items|
  {
    if |items| > 0 {
      FilterNarrows(items[1..], query, more);
      var f := Filter(items, query);
      if Matches(items[0], query) {
        assert f[0] == items[0] && f[1..] == Filter(items[1..], query);
      } else {
        if Matches(items[0], query + more) {
          MatchesShorterQuery(items[0], query, more);
        }
        assert f == Filter(items[1..], query);
      }
    }
  }

  lemma LowerIdempotent(s: string)
    ensures Lower(Lower(s)) == Lower(s)
  {
  }

  /** The query's case is irrelevant. */
  lemma {:induction false} FilterIgnoresCase(items: seq<Item>, query: string)
    ensures Filter(items, Lower(query)) == Filter(items, query)
    decreases |items|
  {
    LowerIdempotent(query);
    if |items| > 0 {
      FilterIgnoresCase(items[1..], query);
    }
  }

  // ---------------------------------------------------------------------------
  // Commands
  // ---------------------------------------------------------------------------

  /** The editor operations a chain can run. */
  datatype Op =
    | DeleteTrigger
    | SetHeading(level: nat)
    | ToggleBulletList
    | ToggleOrderedList
    | ToggleTaskList
    | SetBlockquote
    | SetCodeBlock
    | InsertTable(rows: nat, cols: nat, withHeaderRow: bool)
    | SetHorizontalRule
    | SetImage(src: string)
    | InsertContent(html: string)
    | SetIframe(src: string)
    | InsertTabs(tabs: seq<Tabs.Tab>)

  /** The dialog an asynchronous command waits on. */
  datatype Request = InputRequest(spec: DialogBridge.InputSpec) | ImageRequest

  datatype Action =
    | Run(ops: seq<Op>)
    | MoveCursorToBlockStart
    | AwaitDialog(request: Request)
    | Show(toast: Toast)

  /** Commands that change the current block in one chain. */
  predicate IsBlockCommand(k: Kind) {
    k.Heading? || k in {BulletList, NumberedList, TodoList, Quote, CodeBlock, Table, Divider}
  }

  /** Commands that wait on a dialog. */
  predicate IsDialogCommand(k: Kind) {
    k in {Image, EmbedHtml, EmbedWebpage}
  }

  const AiComingSoon: string := "AI 功能即将上线"

  /** The operation a block command runs after deleting the trigger. */
  function BlockOp(k: Kind): Op
    requires IsBlockCommand(k)
  {
    match k
    case Heading(level) => SetHeading(level)
    case BulletList => ToggleBulletList
    case NumberedList => ToggleOrderedList
    case TodoList => ToggleTaskList
    case Quote => SetBlockquote
    case CodeBlock => SetCodeBlock
    case Table => InsertTable(3, 3, true)
    case Divider => SetHorizontalRule
  }

  function BlockMessage(k: Kind): string
    requires IsBlockCommand(k)
  {
    match k
    case Heading(level) => "已插入标题 " + Decimal(level)
    case BulletList => "已插入项目符号列表"
    case NumberedList => "已插入有序列表"
    case TodoList => "已插入任务列表"
    case Quote => "已插入引用"
    case CodeBlock => "已插入代码块"
    case Table => "已插入表格"
    case Divider => "已插入分割线"
  }

  const HtmlSpec := DialogBridge.InputSpec("嵌入 HTML", "<div>...</div>", true, "")

  const WebpageSpec := DialogBridge.InputSpec("嵌入网页", "https://example.com", false, "")

  function DialogOf(k: Kind): Request
    requires IsDialogCommand(k)
  {
    match k
    case Image => ImageRequest
    case EmbedHtml => InputRequest(HtmlSpec)
    case EmbedWebpage => InputRequest(WebpageSpec)
  }

  /** A dialog result that JavaScript treats as true: present and not
      empty. */
  predicate Truthy(answer: Option<string>) {
    answer.Some? && answer.value != ""
  }

  /** An image source starting with '/' is a local path and is given the
      `myth://` scheme; any other source is kept. */
  function ImageSrc(src: string): (r: string)
    ensures r == src <==> !("/" <= src)
    ensures r != src ==> "myth://" <= r && r[7..] == src
  {
    if "/" <= src then
      var r := "myth://" + src;
      assert r[0] != src[0];
      r
    else src
  }

  /** What follows a truthy dialog result. */
  function Insertion(k: Kind, value: string): seq<Action>
    requires IsDialogCommand(k)
  {
    match k
    case Image => [Run([SetImage(ImageSrc(value))]), Show(Toast(Success, "图片已插入"))]
    case EmbedHtml => [Run([InsertContent(value)]), Show(Toast(Success, "HTML 已插入"))]
    case EmbedWebpage => [Run([SetIframe(value)]), Show(Toast(Success, "网页已嵌入"))]
  }

  /** The trace of a chosen command. `ok` is what a block command's chain
      returned; `answer` is what a dialog command's dialog resolved to. */
  function Perform(k: Kind, ok: bool, answer: Option<string>): (r: seq<Action>)
    ensures k == AskAi ==> r == [Show(Toast(Info, AiComingSoon))]
    ensures IsBlockCommand(k) ==>
              r == [Run([DeleteTrigger, BlockOp(k)]), MoveCursorToBlockStart,
                    Show(Outcome(ok, BlockMessage(k), FailureMessage))]
    ensures IsDialogCommand(k) ==>
              && |r| >= 2 && r[..2] == [Run([DeleteTrigger]), AwaitDialog(DialogOf(k))]
              && (Truthy(answer) <==> |r| > 2)
              && (Truthy(answer) ==> r[2..] == Insertion(k, answer.value))
    ensures k == TabsBlock ==>
              r == [Run([DeleteTrigger, InsertTabs([Tabs.EmptyTab])]), Show(Toast(Success, "Tabs 已创建"))]
  {
    if k == AskAi then [Show(Toast(Info, AiComingSoon))]
    else if k == TabsBlock then
      [Run([DeleteTrigger, InsertTabs([Tabs.EmptyTab])]), Show(Toast(Success, "Tabs 已创建"))]
    else if IsDialogCommand(k) then
      [Run([DeleteTrigger]), AwaitDialog(DialogOf(k))]
        + (if Truthy(answer) then Insertion(k, answer.value) else [])
    else
      [Run([DeleteTrigger, BlockOp(k)]), MoveCursorToBlockStart,
       Show(Outcome(ok, BlockMessage(k), FailureMessage))]
  }

  /** The trace deletes the typed `/query`. */
  predicate DeletesTrigger(r: seq<Action>) {
    exists i :: 0 <= i < |r| && r[i].Run? && DeleteTrigger in r[i].ops
  }

  /** The trace puts something into the document. */
  predicate Inserts(r: seq<Action>) {
    exists i, j :: 0 <= i < |r| && r[i].Run? && 0 <= j < |r[i].ops| && r[i].ops[j] != DeleteTrigger
  }

  /** Every command except Ask AI removes the trigger text, and does so in
      its first action, before any dialog is awaited. Ask AI leaves it. */
  lemma TriggerDeletedFirst(k: Kind, ok: bool, answer: Option<string>)
    ensures var r := Perform(k, ok, answer);
            && (k != AskAi <==> DeletesTrigger(r))
            && (k != AskAi ==> r[0].Run? && r[0].ops[0] == DeleteTrigger)
  {
    var r := Perform(k, ok, answer);
    if k != AskAi {
      assert r[0].Run? && DeleteTrigger in r[0].ops;
    }
  }

  /** A command inserts content exactly when it is not Ask AI and, for a
      dialog command, the dialog gave a truthy result. */
  lemma InsertsIff(k: Kind, ok: bool, answer: Option<string>)
    ensures Inserts(Perform(k, ok, answer)) <==> k != AskAi && (IsDialogCommand(k) ==> Truthy(answer))
  {
    var r := Perform(k, ok, answer);
    if k != AskAi && (IsDialogCommand(k) ==> Truthy(answer)) {
      if IsDialogCommand(k) {
        assert r[2].Run? && r[2].ops[0] != DeleteTrigger;
      } else {
        assert r[0].Run? && r[0].ops[1] != DeleteTrigger;
      }
    }
  }

  /** A cancelled dialog (or an empty answer) leaves the trigger deleted and
      nothing inserted: the command is not atomic. */
  lemma CancelledDialogStillDeletes(k: Kind, ok: bool)
    requires IsDialogCommand(k)
    ensures Perform(k, ok, None) == [Run([DeleteTrigger]), AwaitDialog(DialogOf(k))]
    ensures DeletesTrigger(Perform(k, ok, None)) && !Inserts(Perform(k, ok, None))
  {
    assert Perform(k, ok, None)[0].Run?;
  }

  /** Every block command reports its outcome, and reports success exactly
      when its chain succeeded. */
  lemma BlockCommandsReport(k: Kind, ok: bool, answer: Option<string>)
    requires IsBlockCommand(k)
    ensures var r := Perform(k, ok, answer);
            r[|r| - 1].Show? && (r[|r| - 1].toast.kind == Success <==> ok)
  {
  }

  /** The image dialog already hands back `myth://` URLs for local files,
      so prefixing never applies to them; a data URL is kept as well. */
  lemma ImageSrcOfNormalized(p: string, data: string)
    ensures ImageSrc(DialogBridge.NormalizePath(p)) == DialogBridge.NormalizePath(p)
    ensures ImageSrc("data:" + data) == "data:" + data
  {
    DialogBridge.NormalizePathIdempotent(p);
    assert ("data:" + data)[0] == 'd';
  }

  /** Prefixing a local path once is enough. */
  lemma ImageSrcIdempotent(src: string)
    ensures ImageSrc(ImageSrc(src)) == ImageSrc(src)
  {
    if "/" <= src {
      assert ImageSrc(src)[0] == 'm';
    }
  }

  /** The heading commands name their level. */
  lemma HeadingMessages()
    ensures BlockMessage(Heading(1)) == "已插入标题 1"
    ensures BlockMessage(Heading(2)) == "已插入标题 2"
    ensures BlockMessage(Heading(3)) == "已插入标题 3"
  {
  }

  // ---------------------------------------------------------------------------
  // Popup key handling
  // ---------------------------------------------------------------------------

  /** A key press in the popup: whether it was handled, whether the popup
      was hidden, and what the list did with it (when the list got it). */
  datatype PopupKey = PopupKey(handled: bool, hide: bool, list: Option<CommandList.KeyResult<Item>>)

  /** Escape hides the popup and is handled; any other key goes to the
      list, when the list is mounted (otherwise the answer is `undefined`,
      which counts as not handled). */
  function PopupKeyDown(mounted: bool, flat: seq<Item>, selected: nat, key: CommandList.Key): (r: PopupKey)
    ensures key == CommandList.Escape ==> r == PopupKey(true, true, None)
    ensures key != CommandList.Escape && !mounted ==> r == PopupKey(false, false, None)
    ensures key != CommandList.Escape && mounted ==>
              && !r.hide && r.list.Some?
              && r.list.value == CommandList.OnKeyDown(flat, selected, key)
              && r.handled == r.list.value.handled
  {
    if key == CommandList.Escape then PopupKey(true, true, None)
    else if !mounted then PopupKey(false, false, None)
    else
      var res := CommandList.OnKeyDown(flat, selected, key);
      PopupKey(res.handled, false, Some(res))
  }

  /** The list shows the filtered commands regrouped by section. */
  function MenuItems(items: seq<Item>, query: string): (r: seq<Item>)
    ensures multiset(r) == multiset(Filter(items, query))
  {
    CommandList.FlatIsPermutation(SectionName, Filter(items, query));
    CommandList.Flat(SectionName, Filter(items, query))
  }

  /** Whatever Enter runs from the popup is a command of the catalogue
      matching the typed query. */
  lemma EnterRunsMatchingCommand(items: seq<Item>, query: string, selected: nat)
    requires |MenuItems(items, query)| > 0
    ensures var r := PopupKeyDown(true, MenuItems(items, query), selected, CommandList.Enter);
            && r.handled && r.list.value.invoked.Some?
            && r.list.value.invoked.value in items
            && Matches(r.list.value.invoked.value, query)
  {
    var flat := MenuItems(items, query);
    var x := flat[CommandList.Highlight(|flat|, selected)];
    assert x in multiset(flat);
    assert x in Filter(items, query);
  }
}
