/** The block editor's own slash-menu helpers: the locale of the alert
    block's labels, the "slash searching" state of the current block, and
    where the alert item goes in the slash menu. */
module MythEditor {
  import opened Wrappers
  import opened Text

  // ---------------------------------------------------------------------------
  // Locale
  // ---------------------------------------------------------------------------

  /** The `lang` property as JavaScript sees it: not passed (so it takes
      its default "zh"), a string, or some other value. */
  datatype Lang = Unset | Str(s: string) | NotString

  const DefaultLang: string := "zh"

  /** The string `lang` holds once the default has been applied. */
  function LangString(lang: Lang): Option<string> {
    match lang
    case Unset => Some(DefaultLang)
    case Str(s) => Some(s)
    case NotString => None
  }

  datatype AlertTypes = AlertTypes(warning: string, error: string, info: string, success: string)

  datatype AlertLabels = AlertLabels(blockTitle: string, blockSubtext: string, group: string,
                                     menuLabel: string, aliases: seq<string>, types: AlertTypes)

  const ZhLabels := AlertLabels("提示框", "插入提示框", "高级功能", "提示类型",
                                ["提示框", "提示", "警告", "告警", "alert"],
                                AlertTypes("警告", "错误", "信息", "成功"))

  const EnLabels := AlertLabels("Alert", "Insert alert box", "Advanced", "Alert Type",
                                ["alert", "warning", "error", "info", "success"],
                                AlertTypes("Warning", "Error", "Info", "Success"))

  /** The language is Chinese when it is a string whose lower case starts
      with "zh". */
  predicate IsZh(lang: Lang) {
    LangString(lang).Some? && "zh" <= Lower(LangString(lang).value)
  }

  /** `alertLabels`. */
  function AlertLabelsFor(lang: Lang): (r: AlertLabels)
    ensures r == ZhLabels <==> IsZh(lang)
    ensures r == EnLabels <==> !IsZh(lang)
  {
    if IsZh(lang) then ZhLabels else EnLabels
  }

  /** Chinese is the default; any capitalisation of a "zh" tag, with any
      region after it, is Chinese; a value that is not a string is not. */
  lemma LocaleExamples(region: string)
    ensures AlertLabelsFor(Unset) == ZhLabels
    ensures AlertLabelsFor(Str("ZH" + region)) == ZhLabels
    ensures AlertLabelsFor(Str("zh" + region)) == ZhLabels
    ensures AlertLabelsFor(NotString) == EnLabels
  {
    LowerAppend("ZH", region);
    LowerAppend("zh", region);
  }

  /** A tag that does not start with "z"/"Z" gives English labels. */
  lemma NonZhIsEnglish(s: string)
    requires |s| > 0 && s[0] != 'z' && s[0] != 'Z'
    ensures AlertLabelsFor(Str(s)) == EnLabels
  {
    assert Lower(s)[0] != 'z';
  }

  // ---------------------------------------------------------------------------
  // Slash searching
  // ---------------------------------------------------------------------------

  /** An inline item of a block: styled text, or anything else (a link, a
      custom inline node). */
  datatype Inline = Text(text: string) | OtherInline

  /** A block's content: an array of inline items, or something else (a
      table's content object, or none). */
  datatype BlockContent = InlineArray(items: seq<Inline>) | NotArray

  /** The block's text: the texts of its text items joined, other items
      contributing nothing. */
  function JoinText(items: seq<Inline>): (r: string)
    ensures (forall i :: 0 <= i < |items| ==> items[i].OtherInline?) ==> r == ""
  {
    if |items| == 0 then ""
    else (if items[0].Text? then items[0].text else "") + JoinText(items[1..])
  }

  lemma {:induction false} JoinTextAppend(a: seq<Inline>, b: seq<Inline>)
    ensures JoinText(a + b) == JoinText(a) + JoinText(b)
    decreases |a|
  {
    if |a| > 0 {
      assert (a + b)[1..] == a[1..] + b;
      JoinTextAppend(a[1..], b);
    } else {
      assert a + b == b;
    }
  }

  /** `updateSlashSearchState`: the block's text is a '/' followed by at
      least one more character. */
  function SlashSearching(content: BlockContent): (r: bool)
    ensures r <==> content.InlineArray? && exists q :: |q| > 0 && JoinText(content.items) == "/" + q
  {
    match content
    case NotArray => false
    case InlineArray(items) =>
      var t := JoinText(items);
      SlashThenQuery(t);
      |t| > 1 && t[0] == '/'
  }

  lemma SlashThenQuery(t: string)
    ensures |t| > 1 && t[0] == '/' <==> exists q :: |q| > 0 && t == "/" + q
  {
    if |t| > 1 && t[0] == '/' {
      assert t == "/" + t[1..];
    }
  }

  /** Non-text items do not affect the state, wherever they sit. */
  lemma SlashSearchingIgnoresOtherInline(a: seq<Inline>, b: seq<Inline>)
    ensures SlashSearching(InlineArray(a + [OtherInline] + b)) == SlashSearching(InlineArray(a + b))
  {
    JoinTextAppend(a + [OtherInline], b);
    JoinTextAppend(a, [OtherInline]);
    JoinTextAppend(a, b);
    assert JoinText([OtherInline]) == "";
  }

  /** A lone '/' is not yet a search; '/' with a query is; text split over
      several items counts as one text. */
  lemma SlashSearchingExamples(c: char, q: string)
    ensures !SlashSearching(InlineArray([Text("/")]))
    ensures SlashSearching(InlineArray([Text("/"), Text([c] + q)]))
    ensures !SlashSearching(InlineArray([]))
  {
    assert JoinText([Text("/")]) == "/";
    assert JoinText([Text("/"), Text([c] + q)]) == "/" + ([c] + q) by {
      assert JoinText([Text([c] + q)]) == [c] + q;
    }
  }

  // ---------------------------------------------------------------------------
  // The alert item in the slash menu
  // ---------------------------------------------------------------------------

  /** The block a slash-menu item inserts (or updates the current block
      to): its type and the `type` property it is given. */
  datatype BlockSpec = BlockSpec(blockType: string, propsType: string)

  /** A slash-menu item: its key, labels, group and aliases, and the block
      it inserts. The icon is presentation and is not modelled. */
  datatype MenuItem = MenuItem(key: string, title: string, subtext: string, group: string,
                               aliases: seq<string>, inserts: BlockSpec)

  /** The alert item inserts an alert block of the warning type. */
  const AlertBlock := BlockSpec("alert", "warning")

  function AlertItem(labels: AlertLabels): MenuItem {
    MenuItem("alert", labels.blockTitle, labels.blockSubtext, labels.group, labels.aliases, AlertBlock)
  }

  /** The alert item is keyed "alert", joins the advanced group of the
      chosen locale under its localized title, subtext and aliases, and
      inserts a warning alert block whatever the locale. */
  lemma AlertItemFollowsLocale(lang: Lang)
    ensures var item := AlertItem(AlertLabelsFor(lang));
            && item.key == "alert"
            && item.group == (if IsZh(lang) then "高级功能" else "Advanced")
            && item.title == (if IsZh(lang) then "提示框" else "Alert")
            && item.subtext == (if IsZh(lang) then "插入提示框" else "Insert alert box")
            && "alert" in item.aliases
            && item.inserts == BlockSpec("alert", "warning")
  {
    assert ZhLabels.aliases[4] == "alert";
    assert EnLabels.aliases[0] == "alert";
  }

  /** `insertIndex`: the index of the last item in `group`, if any. */
  function LastInGroup(items: seq<MenuItem>, group: string): (r: Option<nat>)
    ensures r.None? <==> forall j :: 0 <= j < |items| ==> items[j].group != group
    ensures r.Some? ==> r.value < |items| && items[r.value].group == group
    ensures r.Some? ==> forall j :: r.value < j < |items| ==> items[j].group != group
  {
    if |items| == 0 then None
    else if items[|items| - 1].group == group then Some(|items| - 1)
    else LastInGroup(items[..|items| - 1], group)
  }

  /** `getCustomSlashMenuItems`: the alert item goes right after the last
      item of its group, or at the end when the group is absent. */
  function MergeAlert(items: seq<MenuItem>, alert: MenuItem): (r: seq<MenuItem>)
    ensures |r| == |items| + 1
    ensures exists k :: 0 <= k <= |items| && r == items[..k] + [alert] + items[k..]
                        && (forall j :: k <= j < |items| ==> items[j].group != alert.group)
                        && ((k == |items| && forall j :: 0 <= j < |items| ==> items[j].group != alert.group)
                            || (k > 0 && items[k - 1].group == alert.group))
  {
    match LastInGroup(items, alert.group)
    case Some(i) =>
      assert i + 1 < |items| ==> i + 1 > 0;
      items[..i + 1] + [alert] + items[i + 1..]
    case None =>
      assert items == items[..|items|] + items[|items|..];
      items + [alert]
  }

  /** The merged menu is the default menu with the alert item added:
      dropping that one item gives the default items back, in order. */
  lemma MergeKeepsDefaults(items: seq<MenuItem>, alert: MenuItem)
    ensures exists k :: 0 <= k < |MergeAlert(items, alert)|
                        && MergeAlert(items, alert)[k] == alert
                        && MergeAlert(items, alert)[..k] + MergeAlert(items, alert)[k + 1..] == items
  {
    var r := MergeAlert(items, alert);
    var k :| 0 <= k <= |items| && r == items[..k] + [alert] + items[k..];
    assert r[k] == alert;
    assert r[..k] == items[..k] && r[k + 1..] == items[k..];
    assert items[..k] + items[k..] == items;
  }

  /** With no item of its group the alert item comes last; with one it
      comes right after the last of them. */
  lemma MergePlacement(items: seq<MenuItem>, alert: MenuItem)
    ensures LastInGroup(items, alert.group).None? ==> MergeAlert(items, alert) == items + [alert]
    ensures LastInGroup(items, alert.group).Some? ==>
              var i := LastInGroup(items, alert.group).value;
              MergeAlert(items, alert)[i + 1] == alert && MergeAlert(items, alert)[i].group == alert.group
  {
  }
}
