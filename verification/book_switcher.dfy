/** The book carousel: one card per book followed by a "new book" card,
    scrolled horizontally. The active card follows the scroll position; a
    click on a card first activates it, and a second click opens it.

    Scroll positions are whole pixels. */
module BookSwitcher {
  import opened Wrappers
  import BookContext
  import DialogBridge

  /** A card is 200 pixels wide with a 32-pixel gap. */
  const ItemWidth: nat := 200
  const Gap: nat := 32
  const Stride: nat := ItemWidth + Gap

  /** `scrollToItem`: where the container scrolls to show card `index`. */
  function ScrollTarget(index: nat): (x: nat)
    ensures x == index * 232
  {
    index * Stride
  }

  /** `Math.round(x / Stride)` for a whole-pixel `x` (halves round up). */
  function RoundIndex(x: int): (i: int)
    ensures i * 232 - 116 <= x < i * 232 + 116
  {
    (x + Stride / 2) / Stride
  }

  /** The card index for a scroll position: the rounded index clamped to
      the cards `0 ..= bookCount` (the last being the new-book card). */
  function ScrollIndex(x: int, bookCount: nat): (r: nat)
    ensures r <= bookCount
    ensures 0 <= RoundIndex(x) <= bookCount ==> r == RoundIndex(x)
    ensures RoundIndex(x) < 0 ==> r == 0
    ensures RoundIndex(x) > bookCount ==> r == bookCount
  {
    var i := RoundIndex(x);
    if i < 0 then 0 else if i > bookCount then bookCount else i
  }

  /** Half-way between the first two cards, `Math.round` rounds up, so the
      second card is active; past either end the index is clamped. */
  lemma ScrollIndexExamples(bookCount: nat)
    requires bookCount >= 1
    ensures ScrollIndex(116, bookCount) == 1
    ensures ScrollIndex(115, bookCount) == 0
    ensures ScrollIndex(-500, bookCount) == 0
    ensures ScrollIndex(232 * bookCount + 500, bookCount) == bookCount
  {
  }

  function Distance(a: int, b: int): nat {
    if a <= b then b - a else a - b
  }

  /** The chosen card is the one whose scroll target is nearest to the
      scroll position, among all cards. */
  lemma ScrollIndexIsNearest(x: int, bookCount: nat, j: nat)
    requires j <= bookCount
    ensures Distance(x, ScrollTarget(ScrollIndex(x, bookCount))) <= Distance(x, ScrollTarget(j))
  {
  }

  /** Scrolling to a card makes it the active one. */
  lemma ScrollRoundTrip(index: nat, bookCount: nat)
    requires index <= bookCount
    ensures ScrollIndex(ScrollTarget(index), bookCount) == index
  {
  }

  /** `handleScroll`: the new active index, and whether it changed (the
      state is only set when it differs). */
  function HandleScroll(active: nat, x: int, bookCount: nat): (r: (nat, bool))
    ensures r.1 <==> ScrollIndex(x, bookCount) != active
    ensures r.0 == ScrollIndex(x, bookCount)
    ensures !r.1 ==> r.0 == active
  {
    var i := ScrollIndex(x, bookCount);
    if i != active then (i, true) else (active, false)
  }

  // ---------------------------------------------------------------------------
  // Clicks
  // ---------------------------------------------------------------------------

  /** What a click does: open the book and close the switcher, go to the
      new-book page and close, or just activate the card and scroll to
      it. */
  datatype ClickEffect = OpenBook(book: BookContext.Book) | NewBookPage | Focus(index: nat, scrollTo: nat)

  /** `handleCardClick`. */
  function CardClick(active: nat, index: nat, book: BookContext.Book): (r: (nat, ClickEffect))
    ensures index == active ==> r == (active, OpenBook(book))
    ensures index != active ==> r == (index, Focus(index, ScrollTarget(index)))
  {
    if index == active then (active, OpenBook(book)) else (index, Focus(index, ScrollTarget(index)))
  }

  /** `handleNewBookCardClick`. */
  function NewBookCardClick(active: nat, index: nat): (r: (nat, ClickEffect))
    ensures index == active ==> r == (active, NewBookPage)
    ensures index != active ==> r == (index, Focus(index, ScrollTarget(index)))
  {
    if index == active then (active, NewBookPage) else (index, Focus(index, ScrollTarget(index)))
  }

  /** Two clicks on any card open it: the first only activates it (unless
      it already was active), the second opens it. */
  lemma TwoClicksOpen(active: nat, index: nat, book: BookContext.Book)
    ensures var (a1, e1) := CardClick(active, index, book);
            && (e1.OpenBook? <==> index == active)
            && CardClick(a1, index, book) == (index, OpenBook(book))
    ensures var (a1, e1) := NewBookCardClick(active, index);
            && (e1.NewBookPage? <==> index == active)
            && NewBookCardClick(a1, index) == (index, NewBookPage)
  {
  }

  /** The book switched to by the effect, through the context. */
  function ApplyEffect(c: BookContext.Ctx, e: ClickEffect, disk: BookContext.Disk): (r: BookContext.Ctx)
    ensures e.OpenBook? ==> r == BookContext.SwitchBook(c, e.book, disk)
    ensures !e.OpenBook? ==> r == c
  {
    match e
    case OpenBook(b) => BookContext.SwitchBook(c, b, disk)
    case _ => c
  }

  // ---------------------------------------------------------------------------
  // Initial index and covers
  // ---------------------------------------------------------------------------

  /** `books.findIndex(b => b.id === id)`. */
  function FindIndex(books: seq<BookContext.Book>, id: string): (r: Option<nat>)
    ensures r.None? <==> forall i :: 0 <= i < |books| ==> books[i].id != id
    ensures r.Some? ==> r.value < |books| && books[r.value].id == id
                        && forall i :: 0 <= i < r.value ==> books[i].id != id
  {
    BookContext.FindById(books, id)
  }

  /** The active index once the context is known: the open book's position
      when it is listed, otherwise the index is left as it was. */
  function InitialIndex(active: nat, books: seq<BookContext.Book>, current: Option<BookContext.Book>): (r: nat)
    ensures current.Some? && FindIndex(books, current.value.id).Some? ==>
              r < |books| && books[r].id == current.value.id && r == FindIndex(books, current.value.id).value
    ensures current.None? || FindIndex(books, current.value.id).None? ==> r == active
  {
    if current.Some? && |books| > 0 then
      match FindIndex(books, current.value.id)
      case Some(i) => i
      case None => active
    else active
  }

  /** After switching to a listed book, the carousel opens on that book's
      card. */
  lemma InitialIndexAfterSwitch(c: BookContext.Ctx, i: nat, disk: BookContext.Disk, active: nat)
    requires i < |c.books| && c.books[i].path in disk
    requires forall j :: 0 <= j < |c.books| && j != i ==> c.books[j].id != c.books[i].id
    ensures var c' := BookContext.SwitchBook(c, c.books[i], disk);
            InitialIndex(active, c'.books, c'.current) == i
  {
  }

  /** Adding a book with a new id and readable data leaves the context in
      agreement with the store, and the carousel then opens on the new
      book's card, the last before the new-book card. */
  lemma AddBookShowsNewCard(c: BookContext.Ctx, b: BookContext.Book, disk: BookContext.Disk, active: nat)
    requires b.path in disk
    requires forall i :: 0 <= i < |c.books| ==> c.books[i].id != b.id
    ensures var r := BookContext.AddBook(c, Some(b), disk);
            && r.Ok? && BookContext.InSync(r.value.0, disk)
            && InitialIndex(active, r.value.0.books, r.value.0.current) == |c.books|
  {
    var books := c.books + [b];
    assert books[|c.books|].id == b.id;
    assert forall i :: 0 <= i < |c.books| ==> books[i].id != b.id;
  }

  /** The image source of a cover: `None` when there is no cover (a
      placeholder is shown); `file://` and `http` sources are kept; any
      other source gets the `myth://` scheme. */
  function CoverSrc(cover: Option<string>): (r: Option<string>)
    ensures r.None? <==> cover.None? || cover.value == ""
    ensures r.Some? && ("file://" <= cover.value || "http" <= cover.value) ==> r.value == cover.value
    ensures r.Some? && !("file://" <= cover.value || "http" <= cover.value) ==>
              r.value == "myth://" + cover.value
  {
    match cover
    case None => None
    case Some(c) =>
      if c == "" then None
      else if "file://" <= c || "http" <= c then Some(c)
      else Some("myth://" + c)
  }

  /** Every shown cover has a scheme the app can load; for an absolute
      path it agrees with the editor's path normalization. */
  lemma CoverSrcSchemes(cover: string)
    requires cover != ""
    ensures var r := CoverSrc(Some(cover)).value;
            "file://" <= r || "http" <= r || "myth://" <= r
    ensures "/" <= cover ==> CoverSrc(Some(cover)).value == DialogBridge.NormalizePath(cover)
  {
    if "/" <= cover {
      assert !("file://" <= cover) && !("http" <= cover) by {
        assert cover[0] == '/';
      }
    }
  }
}
