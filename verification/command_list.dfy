/** The slash menu's list component: grouping items into sections, the
    flattened order the menu renders and navigates, keyboard navigation and
    the scroll-into-view arithmetic.

    The component is generic in its items; `name` reads an item's raw
    section label (possibly empty). */
module CommandList {
  import opened Wrappers

  // ---------------------------------------------------------------------------
  // Sections
  // ---------------------------------------------------------------------------

  /** `item.section || 'Other'`. */
  function SectionOf<T>(name: T -> string, x: T): (r: string)
    ensures r != ""
    ensures name(x) != "" ==> r == name(x)
  {
    if name(x) == "" then "Other" else name(x)
  }

  predicate NoDuplicates(s: seq<string>) {
    forall i, j :: 0 <= i < j < |s| ==> s[i] != s[j]
  }

  /** The section labels, each once, in the order they first occur. */
  function Sections<T>(name: T -> string, items: seq<T>): (r: seq<string>)
    ensures NoDuplicates(r)
    ensures forall i :: 0 <= i < |items| ==> SectionOf(name, items[i]) in r
    ensures forall s :: s in r ==> exists i :: 0 <= i < |items| && SectionOf(name, items[i]) == s
  {
    if |items| == 0 then []
    else
      var init := items[..|items| - 1];
      var prev := Sections(name, init);
      var s := SectionOf(name, items[|items| - 1]);
      assert forall i :: 0 <= i < |init| ==> init[i] == items[i];
      if s in prev then prev else prev + [s]
  }

  /** `groupedItems.get(s)`: the items of section `s`, in input order. */
  function Group<T>(name: T -> string, items: seq<T>, s: string): (r: seq<T>)
    ensures |r| <= |items|
    ensures forall x :: x in r ==> x in items && SectionOf(name, x) == s
  {
    if |items| == 0 then []
    else
      var x := items[|items| - 1];
      Group(name, items[..|items| - 1], s) + (if SectionOf(name, x) == s then [x] else [])
  }

  /** The groups of `secs`, one after the other. */
  function Concat<T>(name: T -> string, items: seq<T>, secs: seq<string>): seq<T> {
    if |secs| == 0 then [] else Group(name, items, secs[0]) + Concat(name, items, secs[1..])
  }

  /** `flatItems`: every item, regrouped section by section. This is also
      the order in which the menu renders its buttons. */
  function Flat<T>(name: T -> string, items: seq<T>): seq<T> {
    Concat(name, items, Sections(name, items))
  }

  /** Sections only ever grow at the end as items are added: the sections of
      a prefix are a prefix of the sections, so a section that first occurs
      earlier is listed earlier. */
  lemma {:induction false} SectionsPrefix<T>(name: T -> string, items: seq<T>, j: nat)
    requires j <= |items|
    ensures Sections(name, items[..j]) <= Sections(name, items)
    decreases |items|
  {
    if j < |items| {
      var init := items[..|items| - 1];
      assert init[..j] == items[..j];
      SectionsPrefix(name, init, j);
    } else {
      assert items[..j] == items;
    }
  }

  /** Appending an item whose section is new appends that section. */
  lemma SectionsSnocNew<T>(name: T -> string, items: seq<T>, x: T)
    requires SectionOf(name, x) !in Sections(name, items)
    ensures Sections(name, items + [x]) == Sections(name, items) + [SectionOf(name, x)]
  {
    assert (items + [x])[..|items|] == items;
  }

  // ---------------------------------------------------------------------------
  // Flattening is a stable regrouping
  // ---------------------------------------------------------------------------

  /** The items whose section lies in `secs`. */
  function FilterIn<T>(name: T -> string, items: seq<T>, secs: seq<string>): seq<T> {
    if |items| == 0 then []
    else
      var x := items[|items| - 1];
      FilterIn(name, items[..|items| - 1], secs) + (if SectionOf(name, x) in secs then [x] else [])
  }

  lemma {:induction false} FilterInSplit<T>(name: T -> string, items: seq<T>, a: string, rest: seq<string>)
    requires a !in rest
    ensures multiset(FilterIn(name, items, [a] + rest))
         == multiset(Group(name, items, a)) + multiset(FilterIn(name, items, rest))
    decreases |items|
  {
    if |items| > 0 {
      FilterInSplit(name, items[..|items| - 1], a, rest);
    }
  }

  lemma {:induction false} ConcatIsFilterIn<T>(name: T -> string, items: seq<T>, secs: seq<string>)
    requires NoDuplicates(secs)
    ensures multiset(Concat(name, items, secs)) == multiset(FilterIn(name, items, secs))
    decreases |secs|
  {
    if |secs| == 0 {
      FilterInNone(name, items);
    } else {
      var rest := secs[1..];
      assert NoDuplicates(rest) by {
        forall i, j | 0 <= i < j < |rest| ensures rest[i] != rest[j] {
          assert rest[i] == secs[i + 1] && rest[j] == secs[j + 1];
        }
      }
      ConcatIsFilterIn(name, items, rest);
      assert secs[0] !in rest by {
        forall i | 0 <= i < |rest| ensures rest[i] != secs[0] {
          assert rest[i] == secs[i + 1];
        }
      }
      assert secs == [secs[0]] + rest;
      FilterInSplit(name, items, secs[0], rest);
    }
  }

  lemma {:induction false} FilterInNone<T>(name: T -> string, items: seq<T>)
    ensures FilterIn(name, items, []) == []
    decreases |items|
  {
    if |items| > 0 {
      FilterInNone(name, items[..|items| - 1]);
    }
  }

  lemma {:induction false} FilterInAll<T>(name: T -> string, items: seq<T>, secs: seq<string>)
    requires forall i :: 0 <= i < |items| ==> SectionOf(name, items[i]) in secs
    ensures FilterIn(name, items, secs) == items
    decreases |items|
  {
    if |items| > 0 {
      var init := items[..|items| - 1];
      FilterInAll(name, init, secs);
      assert init + [items[|items| - 1]] == items;
    }
  }

  /** The flattened list holds exactly the input items, each as often as
      in the input, and so has the same length. */
  lemma FlatIsPermutation<T>(name: T -> string, items: seq<T>)
    ensures multiset(Flat(name, items)) == multiset(items)
    ensures |Flat(name, items)| == |items|
  {
    var secs := Sections(name, items);
    ConcatIsFilterIn(name, items, secs);
    FilterInAll(name, items, secs);
    assert |multiset(Flat(name, items))| == |multiset(items)|;
  }

  lemma {:induction false} GroupAppend<T>(name: T -> string, a: seq<T>, b: seq<T>, s: string)
    ensures Group(name, a + b, s) == Group(name, a, s) + Group(name, b, s)
    decreases |b|
  {
    if |b| > 0 {
      var b' := b[..|b| - 1];
      assert (a + b)[..|a + b| - 1] == a + b';
      GroupAppend(name, a, b', s);
    } else {
      assert a + b == a;
    }
  }

  lemma {:induction false} GroupOfGroup<T>(name: T -> string, items: seq<T>, t: string, s: string)
    ensures Group(name, Group(name, items, t), s) == if t == s then Group(name, items, s) else []
    decreases |items|
  {
    if |items| > 0 {
      var x := items[|items| - 1];
      var tail := if SectionOf(name, x) == t then [x] else [];
      GroupOfGroup(name, items[..|items| - 1], t, s);
      GroupAppend(name, Group(name, items[..|items| - 1], t), tail, s);
      if tail != [] {
        assert Group(name, tail, s) == Group(name, [], s) + (if SectionOf(name, x) == s then [x] else []);
      }
    }
  }

  lemma {:induction false} GroupOfConcat<T>(name: T -> string, items: seq<T>, secs: seq<string>, s: string)
    requires NoDuplicates(secs)
    ensures Group(name, Concat(name, items, secs), s) == if s in secs then Group(name, items, s) else []
    decreases |secs|
  {
    if |secs| > 0 {
      var rest := secs[1..];
      assert NoDuplicates(rest) by {
        forall i, j | 0 <= i < j < |rest| ensures rest[i] != rest[j] {
          assert rest[i] == secs[i + 1] && rest[j] == secs[j + 1];
        }
      }
      GroupOfConcat(name, items, rest, s);
      GroupAppend(name, Group(name, items, secs[0]), Concat(name, items, rest), s);
      GroupOfGroup(name, items, secs[0], s);
      if s == secs[0] {
        assert s !in rest by {
          forall i | 0 <= i < |rest| ensures rest[i] != s {
            assert rest[i] == secs[i + 1];
          }
        }
      }
    }
  }

  lemma {:induction false} GroupOfAbsent<T>(name: T -> string, items: seq<T>, s: string)
    requires forall i :: 0 <= i < |items| ==> SectionOf(name, items[i]) != s
    ensures Group(name, items, s) == []
    decreases |items|
  {
    if |items| > 0 {
      GroupOfAbsent(name, items[..|items| - 1], s);
    }
  }

  /** Within each section the flattened list keeps the input order. */
  lemma FlatIsStable<T>(name: T -> string, items: seq<T>, s: string)
    ensures Group(name, Flat(name, items), s) == Group(name, items, s)
  {
    var secs := Sections(name, items);
    GroupOfConcat(name, items, secs, s);
    if s !in secs {
      GroupOfAbsent(name, items, s);
    }
  }

  /** Sections come out as contiguous blocks in section order: the
      flattened list is the group of the first section followed by the
      rest. */
  lemma FlatStartsWithFirstSection<T>(name: T -> string, items: seq<T>)
    requires |items| > 0
    ensures Sections(name, items)[0] == SectionOf(name, items[0])
    ensures Group(name, items, SectionOf(name, items[0])) <= Flat(name, items)
  {
    SectionsPrefix(name, items, 1);
    assert items[..1][..0] == [];
  }

  // ---------------------------------------------------------------------------
  // Keyboard navigation
  // ---------------------------------------------------------------------------

  datatype Key = ArrowUp | ArrowDown | Enter | Escape | OtherKey

  /** The outcome of a key press: whether it was handled, the new selected
      index, and the item passed to the command (for Enter). */
  datatype KeyResult<T> = KeyResult(handled: bool, selected: nat, invoked: Option<T>)

  /** The highlighted position `selected % n`, or 0 for an empty list. */
  function Highlight(n: nat, selected: nat): (r: nat)
    ensures n > 0 ==> r < n
    ensures selected < n ==> r == selected
  {
    if n > 0 then selected % n else 0
  }

  /** `onKeyDown` of the list. */
  function OnKeyDown<T>(flat: seq<T>, selected: nat, key: Key): (r: KeyResult<T>)
    ensures |flat| == 0 ==> r == KeyResult(false, selected, None)
    ensures |flat| > 0 ==> (r.handled <==> key in {ArrowUp, ArrowDown, Enter})
    ensures r.invoked.Some? <==> |flat| > 0 && key == Enter
    ensures r.invoked.Some? ==> r.invoked.value == flat[Highlight(|flat|, selected)]
    ensures |flat| > 0 && key in {ArrowUp, ArrowDown} ==> r.selected < |flat|
    ensures !(key in {ArrowUp, ArrowDown}) ==> r.selected == selected
  {
    var n := |flat|;
    if n == 0 then KeyResult(false, selected, None)
    else match key
      case ArrowUp => KeyResult(true, (selected + n - 1) % n, None)
      case ArrowDown => KeyResult(true, (selected + 1) % n, None)
      case Enter => KeyResult(true, selected, Some(flat[selected % n]))
      case _ => KeyResult(false, selected, None)
  }

  /** Division by `n` has one quotient and one remainder. */
  lemma ModUnique(x: int, n: int, q: int, r: int)
    requires n > 0 && 0 <= r < n && x == q * n + r
    ensures x % n == r
  {
    var q', r' := x / n, x % n;
    assert (q' - q) * n == r - r';
    if q' > q {
      MulAtLeast(q' - q, n);
    } else if q' < q {
      MulAtLeast(q - q', n);
    }
  }

  lemma MulAtLeast(k: int, n: int)
    requires k >= 1 && n > 0
    ensures k * n >= n
  {
    assert k * n == (k - 1) * n + n;
  }

  /** Adding one moves the remainder one step, wrapping at `n`. */
  lemma ModAddOne(a: nat, n: nat)
    requires n > 0
    ensures (a + 1) % n == if a % n == n - 1 then 0 else a % n + 1
  {
    var q := a / n;
    if a % n == n - 1 {
      assert a + 1 == (q + 1) * n + 0;
      ModUnique(a + 1, n, q + 1, 0);
    } else {
      ModUnique(a + 1, n, q, a % n + 1);
    }
  }

  /** Down moves the highlight one step forward, wrapping at the end. */
  lemma DownStep<T>(flat: seq<T>, selected: nat)
    requires |flat| > 0
    ensures var h := Highlight(|flat|, selected);
            OnKeyDown(flat, selected, ArrowDown).selected == if h == |flat| - 1 then 0 else h + 1
  {
    ModAddOne(selected, |flat|);
  }

  /** Up moves the highlight one step back, wrapping at the start. */
  lemma UpStep<T>(flat: seq<T>, selected: nat)
    requires |flat| > 0
    ensures var h := Highlight(|flat|, selected);
            OnKeyDown(flat, selected, ArrowUp).selected == if h == 0 then |flat| - 1 else h - 1
  {
    var n, q, r := |flat|, selected / |flat|, selected % |flat|;
    if r == 0 {
      assert selected + n - 1 == q * n + (n - 1);
      ModUnique(selected + n - 1, n, q, n - 1);
    } else {
      assert selected + n - 1 == (q + 1) * n + (r - 1);
      ModUnique(selected + n - 1, n, q + 1, r - 1);
    }
  }

  /** Up after Down, and Down after Up, land back on the highlighted item. */
  lemma UpDownInverse<T>(flat: seq<T>, selected: nat)
    requires |flat| > 0
    ensures OnKeyDown(flat, OnKeyDown(flat, selected, ArrowDown).selected, ArrowUp).selected
         == Highlight(|flat|, selected)
    ensures OnKeyDown(flat, OnKeyDown(flat, selected, ArrowUp).selected, ArrowDown).selected
         == Highlight(|flat|, selected)
  {
    var n := |flat|;
    var d := OnKeyDown(flat, selected, ArrowDown).selected;
    var u := OnKeyDown(flat, selected, ArrowUp).selected;
    DownStep(flat, selected);
    UpStep(flat, selected);
    UpStep(flat, d);
    DownStep(flat, u);
  }

  /** Pressing Down `k` times. */
  function PressDown<T>(flat: seq<T>, selected: nat, k: nat): nat {
    if k == 0 then selected else OnKeyDown(flat, PressDown(flat, selected, k - 1), ArrowDown).selected
  }

  /** Pressing Down `k` times advances the highlight by `k`, cyclically;
      in particular `n` presses return to where the highlight started. */
  lemma {:induction false} PressDownCycles<T>(flat: seq<T>, selected: nat, k: nat)
    requires |flat| > 0
    ensures Highlight(|flat|, PressDown(flat, selected, k)) == (selected + k) % |flat|
  {
    if k > 0 {
      var p := PressDown(flat, selected, k - 1);
      PressDownCycles(flat, selected, k - 1);
      DownStep(flat, p);
      ModAddOne(selected + k - 1, |flat|);
    }
  }

  /** Enter invokes exactly the item the menu shows highlighted. */
  lemma EnterInvokesHighlighted<T>(flat: seq<T>, selected: nat)
    requires |flat| > 0
    ensures OnKeyDown(flat, selected, Enter) == KeyResult(true, selected, Some(flat[Highlight(|flat|, selected)]))
  {
  }

  // ---------------------------------------------------------------------------
  // Scrolling the highlighted item into view
  // ---------------------------------------------------------------------------

  /** The new `scrollTop` for an element at `offset` of height `h` inside a
      container of height `height` currently scrolled to `top`. */
  function ScrollAdjust(offset: int, h: nat, top: int, height: nat): (r: int)
    ensures offset < top ==> r == offset
    ensures top <= offset && offset + h <= top + height ==> r == top
    ensures top <= offset && offset + h > top + height ==> r + height == offset + h
  {
    if offset < top then offset
    else if offset + h > top + height then offset + h - height
    else top
  }

  /** An element no taller than the container ends up fully visible, and
      among all positions that show it the adjusted one is the nearest to
      where the container was. */
  lemma ScrollShowsElement(offset: int, h: nat, top: int, height: nat, t: int)
    requires h <= height
    requires t <= offset && offset + h <= t + height
    ensures var r := ScrollAdjust(offset, h, top, height);
            && r <= offset && offset + h <= r + height
            && (if r <= top then top - r <= if t <= top then top - t else t - top
                else r - top <= if t <= top then top - t else t - top)
  {
  }

  /** Once the element is in view, a second adjustment changes nothing. */
  lemma ScrollSettles(offset: int, h: nat, top: int, height: nat)
    requires h <= height
    ensures var r := ScrollAdjust(offset, h, top, height);
            ScrollAdjust(offset, h, r, height) == r
  {
  }
}
