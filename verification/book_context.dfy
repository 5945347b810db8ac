/** The book workspace shared by the pages: the list of books, the open
    book and its data, and the operations that load, switch, add and save.

    The book store on disk is given as data: `Disk` maps a book's folder
    to the data found there, and each call into the store becomes a
    parameter holding what that call returned. */
module BookContext {
  import opened Wrappers

  datatype Book = Book(id: string, path: string, title: string, cover: Option<string>)

  datatype Todo = Todo(id: int, text: string, completed: bool)

  datatype Inspiration = Inspiration(id: int, text: string, date: string)

  /** A chapter as the home page lists it: its id (which the editor route
      takes) and its title. */
  datatype Chapter = Chapter(id: string, title: string)

  /** A story of the book's settings, with its writing status. */
  datatype Story = Story(title: string, status: string)

  datatype Settings = Settings(worldViews: Option<seq<string>>, stories: Option<seq<Story>>,
                               characters: Option<seq<string>>)

  datatype Info = Info(title: Option<string>)

  /** A book's data as read from its files; any part may be missing. */
  datatype BookData = BookData(todos: Option<seq<Todo>>, chapters: Option<seq<Chapter>>,
                               inspirations: Option<seq<Inspiration>>, settings: Option<Settings>,
                               info: Option<Info>)

  const EmptySettings := Settings(None, None, None)

  /** The data shown before any book is open. */
  const InitialData := BookData(Some([]), Some([]), Some([]), Some(EmptySettings), Some(Info(None)))

  /** The context's state. `lastBookId` is the persisted id of the book
      opened last (`None` when nothing is stored). */
  datatype Ctx = Ctx(books: seq<Book>, current: Option<Book>, data: BookData, lastBookId: Option<string>)

  function InitialCtx(lastBookId: Option<string>): (c: Ctx)
    ensures c.books == [] && c.current.None? && c.data == InitialData
  {
    Ctx([], None, InitialData, lastBookId)
  }

  /** The data found in each book folder. A folder that is missing or
      unreadable is not in the map. */
  type Disk = map<string, BookData>

  /** `loadBookData`: `None` stands for its `null` on a read error. */
  function LoadBookData(disk: Disk, path: string): Option<BookData> {
    if path in disk then Some(disk[path]) else None
  }

  // ---------------------------------------------------------------------------
  // Switching books
  // ---------------------------------------------------------------------------

  /** `switchBook`: with readable data the book becomes the open one and is
      remembered; otherwise nothing changes. */
  function SwitchBook(c: Ctx, book: Book, disk: Disk): (r: Ctx)
    ensures book.path in disk ==>
              r == c.(current := Some(book), data := disk[book.path], lastBookId := Some(book.id))
    ensures book.path !in disk ==> r == c
    ensures r.books == c.books
  {
    match LoadBookData(disk, book.path)
    case Some(data) => c.(current := Some(book), data := data, lastBookId := Some(book.id))
    case None => c
  }

  /** Switching to the book already open, with the same store, changes
      nothing more. */
  lemma SwitchBookIdempotent(c: Ctx, book: Book, disk: Disk)
    ensures SwitchBook(SwitchBook(c, book, disk), book, disk) == SwitchBook(c, book, disk)
  {
  }

  // ---------------------------------------------------------------------------
  // Start-up
  // ---------------------------------------------------------------------------

  /** `loadedBooks.find(b => b.id === id)`. */
  function FindById(books: seq<Book>, id: string): (r: Option<nat>)
    ensures r.None? <==> forall i :: 0 <= i < |books| ==> books[i].id != id
    ensures r.Some? ==> r.value < |books| && books[r.value].id == id
                        && forall i :: 0 <= i < r.value ==> books[i].id != id
  {
    if |books| == 0 then None
    else if books[0].id == id then Some(0)
    else match FindById(books[1..], id)
      case None => None
      case Some(i) => Some(i + 1)
  }

  /** The book opened at start-up. A stored id (an empty one counts as
      none) picks the first book with that id, and nothing when no book has
      it; with no stored id the first book is picked. */
  function StartupChoice(books: seq<Book>, lastBookId: Option<string>): (r: Option<Book>)
    ensures r.Some? ==> r.value in books
    ensures lastBookId.Some? && lastBookId.value != "" ==>
              (r.Some? <==> exists i :: 0 <= i < |books| && books[i].id == lastBookId.value)
    ensures lastBookId.Some? && lastBookId.value != "" && r.Some? ==>
              r.value.id == lastBookId.value && r == Some(books[FindById(books, lastBookId.value).value])
    ensures (lastBookId.None? || lastBookId.value == "") ==>
              (if |books| > 0 then r == Some(books[0]) else r.None?)
  {
    if lastBookId.Some? && lastBookId.value != "" then
      match FindById(books, lastBookId.value)
      case None => None
      case Some(i) => Some(books[i])
    else if |books| > 0 then Some(books[0])
    else None
  }

  /** `loadBooks`. `loaded` is what the store listed (`None` when it
      failed, which changes nothing). */
  function LoadBooks(c: Ctx, loaded: Option<seq<Book>>, disk: Disk): (r: Ctx)
    ensures loaded.None? ==> r == c
    ensures loaded.Some? ==> r.books == loaded.value
    ensures loaded.Some? && StartupChoice(loaded.value, c.lastBookId).None? ==>
              r == c.(books := loaded.value)
    ensures loaded.Some? && StartupChoice(loaded.value, c.lastBookId).Some? ==>
              r == SwitchBook(c.(books := loaded.value), StartupChoice(loaded.value, c.lastBookId).value, disk)
  {
    match loaded
    case None => c
    case Some(books) =>
      var c' := c.(books := books);
      match StartupChoice(books, c.lastBookId)
      case None => c'
      case Some(b) => SwitchBook(c', b, disk)
  }

  /** A stored id that matches no book leaves no book open, even when
      there are books: there is no fallback to the first one. */
  lemma StaleIdOpensNothing(books: seq<Book>, id: string, disk: Disk)
    requires id != "" && |books| > 0
    requires forall i :: 0 <= i < |books| ==> books[i].id != id
    ensures LoadBooks(InitialCtx(Some(id)), Some(books), disk).current.None?
  {
  }

  /** Restarting after a successful switch reopens the same book (when ids
      are unique and its data is still readable). */
  lemma ReopensLastBook(c: Ctx, books: seq<Book>, i: nat, disk: Disk)
    requires i < |books| && books[i].id != "" && books[i].path in disk
    requires forall j :: 0 <= j < |books| && j != i ==> books[j].id != books[i].id
    ensures var last := SwitchBook(c, books[i], disk).lastBookId;
            LoadBooks(InitialCtx(last), Some(books), disk).current == Some(books[i])
  {
    var b := StartupChoice(books, Some(books[i].id));
    var k :| 0 <= k < |books| && books[k] == b.value;
    assert k == i;
  }

  // ---------------------------------------------------------------------------
  // Adding a book
  // ---------------------------------------------------------------------------

  datatype AddError = CreateFailed

  /** `addBook`. `created` is the book the store created (`None` when
      creation threw, which is passed on). The new book is appended and
      then switched to; `disk` is the store after creation. */
  function AddBook(c: Ctx, created: Option<Book>, disk: Disk): (r: Result<(Ctx, Book), AddError>)
    ensures created.None? <==> r.Err?
    ensures r.Ok? ==> r.value.1 == created.value && r.value.0.books == c.books + [created.value]
    ensures r.Ok? && created.value.path in disk ==>
              && r.value.0.current == Some(created.value)
              && r.value.0.data == disk[created.value.path]
    ensures r.Ok? && created.value.path !in disk ==> r.value.0 == c.(books := c.books + [created.value])
  {
    match created
    case None => Err(CreateFailed)
    case Some(b) => Ok((SwitchBook(c.(books := c.books + [b]), b, disk), b))
  }

  // ---------------------------------------------------------------------------
  // Saving
  // ---------------------------------------------------------------------------

  /** A value for one part of a book's data; the constructor names the
      part (`type` in the source). */
  datatype Payload =
    | TodosPart(todos: seq<Todo>)
    | ChaptersPart(chapters: seq<Chapter>)
    | InspirationsPart(inspirations: seq<Inspiration>)
    | SettingsPart(settings: Settings)
    | InfoPart(info: Info)

  /** `{ ...prev, [type]: data }`. */
  function Replace(d: BookData, p: Payload): (r: BookData)
    ensures p.TodosPart? ==> r == d.(todos := Some(p.todos))
    ensures p.ChaptersPart? ==> r == d.(chapters := Some(p.chapters))
    ensures p.InspirationsPart? ==> r == d.(inspirations := Some(p.inspirations))
    ensures p.SettingsPart? ==> r == d.(settings := Some(p.settings))
    ensures p.InfoPart? ==> r == d.(info := Some(p.info))
  {
    match p
    case TodosPart(x) => d.(todos := Some(x))
    case ChaptersPart(x) => d.(chapters := Some(x))
    case InspirationsPart(x) => d.(inspirations := Some(x))
    case SettingsPart(x) => d.(settings := Some(x))
    case InfoPart(x) => d.(info := Some(x))
  }

  /** Whether two payloads name the same part. */
  predicate SamePart(p: Payload, q: Payload) {
    (p.TodosPart? && q.TodosPart?) || (p.ChaptersPart? && q.ChaptersPart?)
    || (p.InspirationsPart? && q.InspirationsPart?) || (p.SettingsPart? && q.SettingsPart?)
    || (p.InfoPart? && q.InfoPart?)
  }

  /** Saving one part twice keeps the later value; saving two different
      parts can be done in either order. */
  lemma ReplaceLaws(d: BookData, p: Payload, q: Payload)
    ensures SamePart(p, q) ==> Replace(Replace(d, p), q) == Replace(d, q)
    ensures !SamePart(p, q) ==> Replace(Replace(d, p), q) == Replace(Replace(d, q), p)
  {
  }

  /** `saveBookData` as written. The store's `saveBookData` reports a
      failed write by returning false rather than throwing, so the
      context's error branch never runs and the open book's data is
      updated whether or not the write succeeded (`written`). With no open
      book nothing happens. */
  function SaveBookDataAsWritten(c: Ctx, p: Payload, written: bool): (r: Ctx)
    ensures c.current.None? ==> r == c
    ensures c.current.Some? ==> r == c.(data := Replace(c.data, p))
  {
    if c.current.None? then c else c.(data := Replace(c.data, p))
  }

  /** The store after an attempted write: a successful write of a part of
      a readable book updates that part. */
  function Persist(disk: Disk, path: string, p: Payload, written: bool): (r: Disk)
    ensures written && path in disk ==> r == disk[path := Replace(disk[path], p)]
    ensures !written || path !in disk ==> r == disk
  {
    if written && path in disk then disk[path := Replace(disk[path], p)] else disk
  }

  /** The open book's data agrees with what its folder holds. */
  predicate InSync(c: Ctx, disk: Disk) {
    c.current.Some? ==> c.current.value.path in disk && disk[c.current.value.path] == c.data
  }

  /** A failed write leaves the page showing data the store does not hold:
      the as-written save breaks `InSync`. */
  lemma AsWrittenLosesSync(c: Ctx, disk: Disk, p: Payload)
    requires InSync(c, disk) && c.current.Some?
    requires Replace(c.data, p) != c.data
    ensures !InSync(SaveBookDataAsWritten(c, p, false), Persist(disk, c.current.value.path, p, false))
  {
  }

  /** `saveBookData` with the failure honoured: the data is updated only
      when the write succeeded. */
  function SaveBookData(c: Ctx, p: Payload, written: bool): (r: Ctx)
    ensures c.current.None? || !written ==> r == c
    ensures c.current.Some? && written ==> r == c.(data := Replace(c.data, p))
  {
    if c.current.None? || !written then c else c.(data := Replace(c.data, p))
  }

  /** Saving keeps the open book's data and its folder in agreement,
      whether or not the write succeeds. */
  lemma SaveKeepsSync(c: Ctx, disk: Disk, p: Payload, written: bool)
    requires InSync(c, disk)
    ensures c.current.Some? ==>
              InSync(SaveBookData(c, p, written), Persist(disk, c.current.value.path, p, written))
    ensures c.current.None? ==> SaveBookData(c, p, written) == c
  {
  }

  /** Switching to a readable book brings the context in agreement with
      the store. */
  lemma SwitchBookSyncs(c: Ctx, book: Book, disk: Disk)
    requires book.path in disk
    ensures InSync(SwitchBook(c, book, disk), disk)
  {
  }
}
