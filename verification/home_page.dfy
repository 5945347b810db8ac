/** The home page of a book: its to-do and inspiration lists, the
    greeting, and the status badges of the stories in its settings.

    The clock and the user name come from the environment and are
    parameters. */
module HomePage {
  import opened Wrappers
  import opened Text
  import opened BookContext

  // ---------------------------------------------------------------------------
  // What the page shows
  // ---------------------------------------------------------------------------

  datatype Lists = Lists(todos: seq<Todo>, chapters: seq<Chapter>, inspirations: seq<Inspiration>,
                         settings: Settings, worldViews: seq<string>, stories: seq<Story>,
                         characters: seq<string>)

  /** The page's lists: each one the book data holds is shown as stored,
      and each missing one (or all, with no data) is read as empty. */
  function ListsOf(data: Option<BookData>): (r: Lists)
    ensures data.None? ==> r.todos == [] && r.chapters == [] && r.inspirations == []
                           && r.settings == EmptySettings
    ensures data.Some? && data.value.todos.Some? ==> r.todos == data.value.todos.value
    ensures data.Some? && data.value.todos.None? ==> r.todos == []
    ensures data.Some? && data.value.chapters.Some? ==> r.chapters == data.value.chapters.value
    ensures data.Some? && data.value.chapters.None? ==> r.chapters == []
    ensures data.Some? && data.value.inspirations.Some? ==> r.inspirations == data.value.inspirations.value
    ensures data.Some? && data.value.inspirations.None? ==> r.inspirations == []
    ensures data.Some? && data.value.settings.Some? ==> r.settings == data.value.settings.value
    ensures data.Some? && data.value.settings.None? ==> r.settings == EmptySettings
    ensures r.settings.worldViews.Some? ==> r.worldViews == r.settings.worldViews.value
    ensures r.settings.worldViews.None? ==> r.worldViews == []
    ensures r.settings.stories.Some? ==> r.stories == r.settings.stories.value
    ensures r.settings.stories.None? ==> r.stories == []
    ensures r.settings.characters.Some? ==> r.characters == r.settings.characters.value
    ensures r.settings.characters.None? ==> r.characters == []
  {
    var d := data.GetOr(BookData(None, None, None, None, None));
    var s := d.settings.GetOr(EmptySettings);
    Lists(d.todos.GetOr([]), d.chapters.GetOr([]), d.inspirations.GetOr([]), s,
          s.worldViews.GetOr([]), s.stories.GetOr([]), s.characters.GetOr([]))
  }

  /** Saving one part of the book data changes only the lists that part
      feeds: a list save replaces that list, a settings save replaces the
      settings lists, and an info save changes no list. */
  lemma SaveShowsOnlyThatPart(d: BookData, p: Payload)
    ensures var before := ListsOf(Some(d));
            var after := ListsOf(Some(Replace(d, p)));
            && (p.TodosPart? ==> after == before.(todos := p.todos))
            && (p.ChaptersPart? ==> after == before.(chapters := p.chapters))
            && (p.InspirationsPart? ==> after == before.(inspirations := p.inspirations))
            && (p.SettingsPart? ==>
                  && after.todos == before.todos && after.chapters == before.chapters
                  && after.inspirations == before.inspirations
                  && after.settings == p.settings
                  && after.stories == p.settings.stories.GetOr([]))
            && (p.InfoPart? ==> after == before)
  {
  }

  /** Before a book is opened the page shows empty lists. */
  lemma InitialListsEmpty()
    ensures var l := ListsOf(Some(InitialData));
            l.todos == [] && l.chapters == [] && l.inspirations == []
            && l.worldViews == [] && l.stories == [] && l.characters == []
  {
  }

  // ---------------------------------------------------------------------------
  // To-dos
  // ---------------------------------------------------------------------------

  /** `toggleTodo`: flips `completed` on every to-do with the id. */
  function ToggleTodo(todos: seq<Todo>, id: int): (r: seq<Todo>)
    ensures |r| == |todos|
    ensures forall i :: 0 <= i < |todos| ==>
              && r[i].id == todos[i].id && r[i].text == todos[i].text
              && (r[i].completed <==> (todos[i].completed != (todos[i].id == id)))
  {
    seq(|todos|, i requires 0 <= i < |todos| =>
      if todos[i].id == id then todos[i].(completed := !todos[i].completed) else todos[i])
  }

  /** Toggling the same to-do twice restores the list. */
  lemma ToggleTwice(todos: seq<Todo>, id: int)
    ensures ToggleTodo(ToggleTodo(todos, id), id) == todos
  {
  }

  /** Toggling one id leaves the to-dos with other ids as they were. */
  lemma ToggleKeepsOthers(todos: seq<Todo>, id: int)
    ensures forall i :: 0 <= i < |todos| && todos[i].id != id ==> ToggleTodo(todos, id)[i] == todos[i]
  {
  }

  /** An input box of the page: its text and whether it is shown. */
  datatype Draft = Draft(text: string, open: bool)

  /** `handleAddTodo`: with some non-blank input, appends a new to-do with
      the raw input (untrimmed), then clears and closes the box; otherwise
      saves nothing and changes nothing. `now` is the new id. */
  function AddTodo(todos: seq<Todo>, draft: Draft, now: int): (r: (Option<Payload>, Draft))
    ensures AllSpace(draft.text) ==> r == (None, draft)
    ensures !AllSpace(draft.text) ==>
              r == (Some(TodosPart(todos + [Todo(now, draft.text, false)])), Draft("", false))
  {
    TrimEmptyIffAllSpace(draft.text);
    if Trim(draft.text) != "" then
      (Some(TodosPart(todos + [Todo(now, draft.text, false)])), Draft("", false))
    else (None, draft)
  }

  // ---------------------------------------------------------------------------
  // Inspirations
  // ---------------------------------------------------------------------------

  /** The local time at the moment of adding. */
  datatype Clock = Clock(hour: nat, minute: nat, millis: int)

  /** `${hours}:${minutes padded to two digits}`. */
  function TimeString(hour: nat, minute: nat): string {
    Decimal(hour) + ":" + PadStart(Decimal(minute), 2, '0')
  }

  /** `t` is a non-empty hour numeral without leading zeros (midnight is
      the single digit "0"), a ':' and a two-digit minute numeral, reading
      back as `hour` and `minute`. */
  predicate ReadsAsTime(t: string, hour: nat, minute: nat) {
    var k := |t| - 3;
    && k >= 0
    && t[k] == ':'
    && AllDigits(t[..k]) && ParseDecimal(t[..k]) == hour
    && k > 0 && (k > 1 ==> t[0] != '0')
    && AllDigits(t[k + 1..]) && ParseDecimal(t[k + 1..]) == minute
  }

  /** The hour is written without padding and the minutes with two digits,
      and both can be read back. */
  lemma TimeStringRoundTrip(hour: nat, minute: nat)
    requires minute < 60
    ensures ReadsAsTime(TimeString(hour, minute), hour, minute)
  {
    var h := Decimal(hour);
    var mm := PadStart(Decimal(minute), 2, '0');
    assert ReadsAsTime(h + ":" + mm, hour, minute) by {
      HourRoundTrip(hour);
      MinutesRoundTrip(minute);
      SplitAtColon(h, mm, hour, minute);
    }
    assert TimeString(hour, minute) == h + ":" + mm;
  }

  /** Just after midnight the time is "0:05": the hour is the single digit
      "0", neither padded nor left out. */
  lemma MidnightTime()
    ensures TimeString(0, 5) == "0:05"
    ensures ReadsAsTime("0:05", 0, 5)
    ensures !ReadsAsTime("00:05", 0, 5) && !ReadsAsTime(":05", 0, 5)
  {
    assert "0:05"[..1] == "0" && "0:05"[2..] == "05";
    assert ParseDecimal("05") == 5 by { assert "05"[..1] == "0"; }
  }

  /** Reading back `h:mm` from its two numerals. */
  lemma SplitAtColon(h: string, mm: string, hour: nat, minute: nat)
    requires |h| > 0 && AllDigits(h) && ParseDecimal(h) == hour && (|h| > 1 ==> h[0] != '0')
    requires |mm| == 2 && AllDigits(mm) && ParseDecimal(mm) == minute
    ensures ReadsAsTime(h + ":" + mm, hour, minute)
  {
    var t := h + ":" + mm;
    assert t[..|h|] == h;
    assert t[|h| + 1..] == mm;
  }

  lemma HourRoundTrip(hour: nat)
    ensures AllDigits(Decimal(hour)) && ParseDecimal(Decimal(hour)) == hour
    ensures hour > 0 ==> Decimal(hour)[0] != '0'
    ensures |Decimal(hour)| > 1 ==> Decimal(hour)[0] != '0'
  {
    ParseDecimalOfDecimal(hour);
    var h := Decimal(hour);
    if hour > 0 && |h| == 1 {
      assert h == [DigitChar(hour)];
    }
  }

  lemma MinutesRoundTrip(minute: nat)
    requires minute < 60
    ensures var mm := PadStart(Decimal(minute), 2, '0');
            |mm| == 2 && AllDigits(mm) && ParseDecimal(mm) == minute
  {
    var m := Decimal(minute);
    var mm := PadStart(m, 2, '0');
    ParseDecimalOfDecimal(minute);
    if minute < 10 {
      assert mm == "0" + m;
      ParseDecimalLeadingZero(m);
    } else {
      DecimalLength(minute);
      assert mm == m;
    }
  }

  /** A number below 100 has at most two digits. */
  lemma DecimalLength(n: nat)
    requires n < 100
    ensures |Decimal(n)| <= 2
  {
    if n >= 10 {
      assert Decimal(n) == Decimal(n / 10) + [DigitChar(n % 10)];
    }
  }

  /** `handleAddInspiration`: the same guard as for to-dos; the new entry
      records the time. */
  function AddInspiration(inspirations: seq<Inspiration>, draft: Draft, now: Clock): (r: (Option<Payload>, Draft))
    ensures AllSpace(draft.text) ==> r == (None, draft)
    ensures !AllSpace(draft.text) ==>
              r == (Some(InspirationsPart(inspirations + [Inspiration(now.millis, draft.text,
                                                                     TimeString(now.hour, now.minute))])),
                    Draft("", false))
  {
    TrimEmptyIffAllSpace(draft.text);
    if Trim(draft.text) != "" then
      (Some(InspirationsPart(inspirations + [Inspiration(now.millis, draft.text, TimeString(now.hour, now.minute))])),
       Draft("", false))
    else (None, draft)
  }

  /** Adding to the open book's lists through the context appends exactly
      one entry at the end. */
  lemma AddTodoThroughContext(c: Ctx, draft: Draft, now: int)
    requires c.current.Some? && !AllSpace(draft.text)
    ensures var todos := ListsOf(Some(c.data)).todos;
            var saved := SaveBookData(c, AddTodo(todos, draft, now).0.value, true);
            ListsOf(Some(saved.data)).todos == todos + [Todo(now, draft.text, false)]
  {
  }

  // ---------------------------------------------------------------------------
  // Greeting
  // ---------------------------------------------------------------------------

  /** The greeting for an hour of the day. */
  function Greeting(hour: int): (r: string)
    ensures 0 <= hour < 6 ==> r == "早上好"
    ensures 6 <= hour < 12 ==> r == "上午好"
    ensures 12 <= hour < 18 ==> r == "下午好"
    ensures 18 <= hour < 24 ==> r == "晚上好"
  {
    if hour >= 0 && hour < 6 then "早上好"
    else if hour < 12 then "上午好"
    else if hour < 18 then "下午好"
    else "晚上好"
  }

  /** The day falls into four six-hour quarters, each with its own
      greeting: two hours get the same greeting exactly when they lie in
      the same quarter. */
  lemma GreetingByQuarter(h1: int, h2: int)
    requires 0 <= h1 < 24 && 0 <= h2 < 24
    ensures Greeting(h1) == Greeting(h2) <==> h1 / 6 == h2 / 6
  {
  }

  /** The displayed user name: the first non-empty of `USERNAME` and
      `USER`, else "User", with its first letter upper-cased. */
  function DisplayName(username: Option<string>, user: Option<string>): (r: string)
    ensures |r| > 0
    ensures username.Some? && username.value != "" ==> r == Capitalize(username.value)
    ensures (username.None? || username.value == "") && user.Some? && user.value != "" ==>
              r == Capitalize(user.value)
    ensures (username.None? || username.value == "") && (user.None? || user.value == "") ==> r == "User"
  {
    var name :=
      if username.Some? && username.value != "" then username.value
      else if user.Some? && user.value != "" then user.value
      else "User";
    Capitalize(name)
  }

  /** A lower-case login name shows with a capital, the rest unchanged. */
  lemma DisplayNameCapitalizes(c: char, rest: string)
    requires IsLowerAscii(c)
    ensures var r := DisplayName(Some([c] + rest), None);
            IsUpperAscii(r[0]) && Lower([r[0]]) == [c] && r[1..] == rest
  {
    assert ([c] + rest)[1..] == rest;
  }

  // ---------------------------------------------------------------------------
  // Story status badges
  // ---------------------------------------------------------------------------

  const NotStarted: string := "未开始"
  const InProgress: string := "进行中"
  const Done: string := "已完成"

  /** `getStatusColor`: the badge classes for a story's status. */
  function StatusColor(status: string): (r: string)
    ensures status == NotStarted ==> r == "bg-gray-100 text-gray-600 border-gray-200"
    ensures status == InProgress ==> r == "bg-black text-white border-black"
    ensures status == Done ==> r == "bg-gray-200 text-gray-800 border-gray-300"
    ensures status !in {NotStarted, InProgress, Done} ==> r == "bg-gray-100 text-gray-600"
  {
    if status == NotStarted then "bg-gray-100 text-gray-600 border-gray-200"
    else if status == InProgress then "bg-black text-white border-black"
    else if status == Done then "bg-gray-200 text-gray-800 border-gray-300"
    else "bg-gray-100 text-gray-600"
  }

  /** Each known status has a badge of its own, and an unknown status gets
      a badge none of them has. */
  lemma StatusColorsDistinct(s1: string, s2: string)
    requires s1 in {NotStarted, InProgress, Done}
    ensures StatusColor(s1) == StatusColor(s2) <==> s1 == s2
  {
  }
}
