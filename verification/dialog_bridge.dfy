/** The editor's asynchronous dialog bridge: the text-input dialog and the
    image dialog, each with one slot holding the resolver of the promise a
    command is awaiting.

    A promise is named by a token; resolving it is an event
    `Resolution(token, value)` where `None` is `null`. The bridge's state
    after each handler is what React holds once the handler's state
    updates are applied. */
module DialogBridge {
  import opened Wrappers
  import opened Text
  import opened Notify

  type Token = nat

  datatype InputDialog = InputDialog(open: bool, title: string, placeholder: string,
                                     value: string, multiline: bool)

  datatype ImageDialog = ImageDialog(open: bool, previewUrl: string, error: string,
                                     allowFilePick: bool)

  datatype Bridge = Bridge(input: InputDialog, inputResolver: Option<Token>,
                           image: ImageDialog, imageResolver: Option<Token>)

  const InitialBridge := Bridge(InputDialog(false, "", "", "", false), None,
                                ImageDialog(false, "", "", false), None)

  /** What a command passes to `requestInput`; `multiline` defaults to false
      and `defaultValue` to the empty string. */
  datatype InputSpec = InputSpec(title: string, placeholder: string, multiline: bool,
                                 defaultValue: string)

  datatype Resolution = Resolution(token: Token, value: Option<string>)

  /** The outcome of one handler: the new state, the promise it resolved
      (if any) and the toast it raised (if any). */
  datatype Step = Step(bridge: Bridge, resolved: Option<Resolution>, toast: Option<Toast>)

  // ---------------------------------------------------------------------------
  // Text input
  // ---------------------------------------------------------------------------

  /** `requestInput`: stores the new resolver, replacing (and so dropping)
      any resolver already stored, and opens the dialog on the default
      value. */
  function RequestInput(b: Bridge, token: Token, spec: InputSpec): (s: Step)
    ensures s.bridge.inputResolver == Some(token)
    ensures s.bridge.input == InputDialog(true, spec.title, spec.placeholder,
                                          spec.defaultValue, spec.multiline)
    ensures s.bridge.image == b.image && s.bridge.imageResolver == b.imageResolver
    ensures s.resolved.None? && s.toast.None?
  {
    Step(b.(inputResolver := Some(token),
            input := InputDialog(true, spec.title, spec.placeholder, spec.defaultValue, spec.multiline)),
         None, None)
  }

  /** Typing in the dialog: only the typed value changes. */
  function EditInput(b: Bridge, value: string): (r: Bridge)
    ensures r.input.value == value
    ensures r.input.(value := b.input.value) == b.input
    ensures r.inputResolver == b.inputResolver && r.image == b.image && r.imageResolver == b.imageResolver
  {
    b.(input := b.input.(value := value))
  }

  /** The value a confirm resolves with: a single-line value is trimmed, a
      multi-line one is not, and an empty result becomes `null`. */
  function ConfirmedValue(d: InputDialog): (r: Option<string>)
    ensures d.multiline ==> r == (if d.value == "" then None else Some(d.value))
    ensures !d.multiline ==> (r.None? <==> AllSpace(d.value))
    ensures !d.multiline && r.Some? ==> r.value == Trim(d.value)
  {
    var v := if d.multiline then d.value else Trim(d.value);
    TrimEmptyIffAllSpace(d.value);
    if v == "" then None else Some(v)
  }

  /** Confirm: closes the dialog, and if a resolver is stored, resolves it
      with the confirmed value and clears the slot. */
  function ConfirmInput(b: Bridge): (s: Step)
    ensures !s.bridge.input.open && s.bridge.inputResolver.None?
    ensures s.bridge.input == b.input.(open := false)
    ensures s.bridge.image == b.image && s.bridge.imageResolver == b.imageResolver
    ensures s.resolved.Some? <==> b.inputResolver.Some?
    ensures s.resolved.Some? ==>
              s.resolved.value == Resolution(b.inputResolver.value, ConfirmedValue(b.input))
    ensures s.toast.None?
  {
    var closed := b.(input := b.input.(open := false));
    match b.inputResolver
    case None => Step(closed, None, None)
    case Some(t) => Step(closed.(inputResolver := None), Some(Resolution(t, ConfirmedValue(b.input))), None)
  }

  /** Cancel: closes the dialog and resolves any stored resolver with `null`. */
  function CancelInput(b: Bridge): (s: Step)
    ensures !s.bridge.input.open && s.bridge.inputResolver.None?
    ensures s.bridge.input == b.input.(open := false)
    ensures s.bridge.image == b.image && s.bridge.imageResolver == b.imageResolver
    ensures s.resolved.Some? <==> b.inputResolver.Some?
    ensures s.resolved.Some? ==> s.resolved.value == Resolution(b.inputResolver.value, None)
    ensures s.toast.None?
  {
    var closed := b.(input := b.input.(open := false));
    match b.inputResolver
    case None => Step(closed, None, None)
    case Some(t) => Step(closed.(inputResolver := None), Some(Resolution(t, None)), None)
  }

  // ---------------------------------------------------------------------------
  // Image paths
  // ---------------------------------------------------------------------------

  const AllowedExtensions: seq<string> := ["jpg", "jpeg", "png", "gif", "webp", "svg"]

  const InvalidImageMessage: string := "请选择 JPG/PNG/GIF/WEBP/SVG 格式的图片"

  const NoImageMessage: string := "请先选择图片"

  predicate NoDot(s: string) {
    forall i :: 0 <= i < |s| ==> s[i] != '.'
  }

  /** `value.split('.').pop()`: the text after the last '.', or the whole
      string when it has none. */
  function AfterLastDot(s: string): (r: string)
    ensures |r| <= |s| && r == s[|s| - |r|..]
    ensures NoDot(r)
    ensures |r| < |s| ==> s[|s| - |r| - 1] == '.'
  {
    if |s| == 0 then ""
    else if s[|s| - 1] == '.' then ""
    else
      var init := s[..|s| - 1];
      var r := AfterLastDot(init);
      assert s[|s| - |r| - 1..] == init[|init| - |r|..] + [s[|s| - 1]];
      r + [s[|s| - 1]]
  }

  /** `validateImagePath`: the lowered extension must be one of the allowed
      six; an empty extension is rejected. */
  predicate IsValidImagePath(s: string) {
    IsAllowedExtension(Lower(AfterLastDot(s)))
  }

  predicate IsAllowedExtension(ext: string) {
    ext != "" && ext in AllowedExtensions
  }

  /** `normalizePath`: a `file://` URL or an absolute path becomes a `myth://`
      URL; anything else is kept. */
  function NormalizePath(p: string): (r: string)
    ensures r == p <==> !("file://" <= p) && !("/" <= p)
    ensures "file://" <= p ==> r == "myth://" + p[|"file://"|..]
    ensures !("file://" <= p) && "/" <= p ==> r == "myth://" + p
  {
    if "file://" <= p then
      var r := "myth://" + p[|"file://"|..];
      assert r[0] != p[0];
      r
    else if "/" <= p then "myth://" + p
    else p
  }

  // ---------------------------------------------------------------------------
  // Image dialog
  // ---------------------------------------------------------------------------

  /** Where `requestImage` runs: in the browser (a file input inside the
      dialog), or under Electron, where the native picker has already
      returned `picked` (`None` when the user dismissed it). */
  datatype ImageHost = Browser | Electron(picked: Option<string>)

  /** `requestImage`. Under Electron an empty pick or a disallowed path
      resolves `null` at once without opening the dialog; a valid path opens
      the dialog on its normalized preview, with no file input. In the
      browser the dialog opens empty, with a file input. */
  function RequestImage(b: Bridge, token: Token, host: ImageHost): (s: Step)
    ensures host.Electron? && (host.picked.None? || host.picked.value == "") ==>
              s == Step(b, Some(Resolution(token, None)), None)
    ensures host.Electron? && host.picked.Some? && host.picked.value != ""
            && !IsValidImagePath(host.picked.value) ==>
              s == Step(b, Some(Resolution(token, None)), Some(Toast(Error, InvalidImageMessage)))
    ensures host.Electron? && host.picked.Some? && IsValidImagePath(host.picked.value) ==>
              && s.bridge.imageResolver == Some(token) && s.resolved.None?
              && s.bridge.image == ImageDialog(true, NormalizePath(host.picked.value), "", false)
    ensures host.Browser? ==>
              && s.bridge.imageResolver == Some(token) && s.resolved.None?
              && s.bridge.image == ImageDialog(true, "", "", true)
    ensures s.bridge.input == b.input && s.bridge.inputResolver == b.inputResolver
  {
    match host
    case Electron(picked) =>
      if picked.None? || picked.value == "" then Step(b, Some(Resolution(token, None)), None)
      else if !IsValidImagePath(picked.value) then
        Step(b, Some(Resolution(token, None)), Some(Toast(Error, InvalidImageMessage)))
      else
        Step(b.(imageResolver := Some(token),
                image := ImageDialog(true, NormalizePath(picked.value), "", false)), None, None)
    case Browser =>
      Step(b.(imageResolver := Some(token), image := ImageDialog(true, "", "", true)), None, None)
  }

  /** Confirm: without a preview the dialog stays open with an error and
      nothing resolves; with one it closes and resolves the preview URL. */
  function ConfirmImage(b: Bridge): (s: Step)
    ensures b.image.previewUrl == "" ==>
              s == Step(b.(image := b.image.(error := NoImageMessage)), None, None)
    ensures b.image.previewUrl != "" ==>
              && s.bridge.image == b.image.(open := false) && s.bridge.imageResolver.None?
              && (s.resolved.Some? <==> b.imageResolver.Some?)
              && (s.resolved.Some? ==>
                    s.resolved.value == Resolution(b.imageResolver.value, Some(b.image.previewUrl)))
    ensures s.bridge.input == b.input && s.bridge.inputResolver == b.inputResolver
    ensures s.toast.None?
  {
    if b.image.previewUrl == "" then Step(b.(image := b.image.(error := NoImageMessage)), None, None)
    else
      var closed := b.(image := b.image.(open := false));
      match b.imageResolver
      case None => Step(closed, None, None)
      case Some(t) => Step(closed.(imageResolver := None), Some(Resolution(t, Some(b.image.previewUrl))), None)
  }

  /** Cancel: closes the dialog, keeping its preview and error, and
      resolves any stored resolver with `null`. */
  function CancelImage(b: Bridge): (s: Step)
    ensures s.bridge.image == b.image.(open := false) && s.bridge.imageResolver.None?
    ensures s.resolved.Some? <==> b.imageResolver.Some?
    ensures s.resolved.Some? ==> s.resolved.value == Resolution(b.imageResolver.value, None)
    ensures s.bridge.input == b.input && s.bridge.inputResolver == b.inputResolver
    ensures s.toast.None?
  {
    var closed := b.(image := b.image.(open := false));
    match b.imageResolver
    case None => Step(closed, None, None)
    case Some(t) => Step(closed.(imageResolver := None), Some(Resolution(t, None)), None)
  }

  /** Choosing a file in the browser dialog (`None` when nothing was
      chosen). A disallowed name sets the error and keeps the old preview;
      an allowed one changes nothing yet and starts reading the file (the
      `bool`). */
  function ChooseFile(b: Bridge, file: Option<string>): (r: (Bridge, bool))
    ensures r.1 <==> file.Some? && IsValidImagePath(file.value)
    ensures file.Some? && !IsValidImagePath(file.value) ==>
              r.0 == b.(image := b.image.(error := InvalidImageMessage))
    ensures file.None? || r.1 ==> r.0 == b
  {
    match file
    case None => (b, false)
    case Some(name) =>
      if !IsValidImagePath(name) then (b.(image := b.image.(error := InvalidImageMessage)), false)
      else (b, true)
  }

  /** The file reader's `onload`, which fires later: the data URL becomes
      the preview and the error is cleared. It updates whatever dialog state
      is current, open or not. */
  function LoadFile(b: Bridge, dataUrl: string): (r: Bridge)
    ensures r.image.previewUrl == dataUrl && r.image.error == ""
    ensures r.image.open == b.image.open && r.image.allowFilePick == b.image.allowFilePick
    ensures r.imageResolver == b.imageResolver && r.input == b.input && r.inputResolver == b.inputResolver
  {
    b.(image := b.image.(previewUrl := dataUrl, error := ""))
  }

  /** Choosing an allowed file and letting it load shows the file. Until it
      has loaded, a confirm sees the preview from before (and with none, it
      stays open with an error); a load that lands after a cancel fills the
      closed dialog without resolving anything. */
  lemma ChooseThenLoad(b: Bridge, name: string, dataUrl: string)
    requires IsValidImagePath(name)
    ensures var (b1, reading) := ChooseFile(b, Some(name));
            && reading
            && LoadFile(b1, dataUrl).image == b.image.(previewUrl := dataUrl, error := "")
            && ConfirmImage(b1) == ConfirmImage(b)
    ensures b.image.previewUrl == "" ==> ConfirmImage(ChooseFile(b, Some(name)).0).resolved.None?
    ensures var late := LoadFile(CancelImage(b).bridge, dataUrl);
            !late.image.open && late.imageResolver.None? && late.image.previewUrl == dataUrl
  {
  }

  // ---------------------------------------------------------------------------
  // Properties of image paths
  // ---------------------------------------------------------------------------

  /** `t` ends with a dot followed by `e`. */
  predicate EndsWithDotThen(t: string, e: string) {
    |t| > |e| && t[|t| - |e| - 1] == '.' && t[|t| - |e|..] == e
  }

  /** `AfterLastDot` is pinned down by its contract: a dot-free `e` is the
      extension of `t` exactly when `t` is `e` or ends in a dot and `e`. */
  lemma AfterLastDotIff(t: string, e: string)
    requires NoDot(e)
    ensures AfterLastDot(t) == e <==> (t == e || EndsWithDotThen(t, e))
  {
  }

  lemma LowerKeepsDots(s: string)
    ensures AfterLastDot(Lower(s)) == Lower(AfterLastDot(s))
  {
    var r := AfterLastDot(s);
    var k := |s| - |r|;
    LowerNoDot(r);
    LowerSuffix(s, k);
    if k > 0 {
      assert Lower(s)[k - 1] == '.';
    }
    AfterLastDotIff(Lower(s), Lower(r));
  }

  lemma LowerNoDot(r: string)
    requires NoDot(r)
    ensures NoDot(Lower(r))
  {
    forall i | 0 <= i < |r| ensures Lower(r)[i] != '.' {
      assert r[i] != '.';
    }
  }

  lemma LowerSuffix(s: string, k: nat)
    requires k <= |s|
    ensures Lower(s)[k..] == Lower(s[k..])
  {
    assert s == s[..k] + s[k..];
    LowerAppend(s[..k], s[k..]);
  }

  /** An independent reading of `validateImagePath`, first half: a path
      that is, lowered, an allowed extension on its own or ends with a dot
      and an allowed extension is accepted. */
  lemma ValidImagePathComplete(s: string, e: string)
    requires e in AllowedExtensions
    requires Lower(s) == e || EndsWithDotThen(Lower(s), e)
    ensures IsValidImagePath(s)
  {
    AllowedExtensionShape(e);
    ExtensionOfLowered(s, e);
  }

  lemma AllowedExtensionShape(e: string)
    requires e in AllowedExtensions
    ensures NoDot(e) && IsAllowedExtension(e)
  {
  }

  lemma ExtensionOfLowered(s: string, e: string)
    requires NoDot(e)
    requires Lower(s) == e || EndsWithDotThen(Lower(s), e)
    ensures Lower(AfterLastDot(s)) == e
  {
    AfterLastDotIff(Lower(s), e);
    LowerKeepsDots(s);
  }

  /** Second half: an accepted path has that shape, for the extension
      returned. */
  lemma ValidImagePathSound(s: string) returns (e: string)
    requires IsValidImagePath(s)
    ensures e in AllowedExtensions
    ensures Lower(s) == e || EndsWithDotThen(Lower(s), e)
  {
    LowerKeepsDots(s);
    e := AfterLastDot(Lower(s));
    AfterLastDotIff(Lower(s), e);
  }

  /** Whatever precedes it, an upper-case `.PNG` extension is accepted. */
  lemma AcceptsUpperCaseExtension(stem: string)
    ensures IsValidImagePath(stem + ".PNG")
  {
    LowerAppend(stem, ".PNG");
    assert Lower(".PNG") == ".png";
    var low := Lower(stem + ".PNG");
    assert low[|low| - 4..] == ".png";
    AllowedExtensionShape("png");
    ExtensionOfLowered(stem + ".PNG", "png");
  }

  /** Whatever precedes it, a `.txt` extension is rejected. */
  lemma RejectsTextFile(stem: string)
    ensures !IsValidImagePath(stem + ".txt")
  {
    LowerAppend(stem, ".txt");
    assert Lower(".txt") == ".txt";
    var low := Lower(stem + ".txt");
    assert low[|low| - 4..] == ".txt";
    ExtensionOfLowered(stem + ".txt", "txt");
    TxtNotAllowed(Lower(AfterLastDot(stem + ".txt")));
  }

  lemma TxtNotAllowed(ext: string)
    requires ext == "txt"
    ensures !IsAllowedExtension(ext)
  {
  }

  /** A name ending in a dot has an empty extension and is rejected. */
  lemma RejectsEmptyExtension(stem: string)
    ensures !IsValidImagePath(stem + ".")
  {
    AfterLastDotIff(stem + ".", "");
  }

  /** With no dot the whole name is the extension, so a file named just
      `png` is accepted. */
  lemma AcceptsBareExtension()
    ensures IsValidImagePath("png")
  {
    AfterLastDotIff("png", "png");
    assert Lower("png") == "png";
    AllowedExtensionShape("png");
  }

  /** A normalized path never starts with '/', and normalizing twice is the
      same as normalizing once. */
  lemma NormalizePathIdempotent(p: string)
    ensures !("/" <= NormalizePath(p))
    ensures NormalizePath(NormalizePath(p)) == NormalizePath(p)
  {
    var r := NormalizePath(p);
    if "file://" <= p || "/" <= p {
      assert r[0] == 'm';
      assert !("/" <= r) && !("file://" <= r);
    }
  }

  // ---------------------------------------------------------------------------
  // Exactly-once resolution
  // ---------------------------------------------------------------------------

  /** The events the bridge reacts to. */
  datatype Event =
    | AskInput(token: Token, spec: InputSpec)
    | TypeInput(value: string)
    | ConfirmInputClicked
    | CancelInputClicked
    | AskImage(token: Token, host: ImageHost)
    | FileChosen(file: Option<string>)
    | FileLoaded(dataUrl: string)
    | ConfirmImageClicked
    | CancelImageClicked

  function Apply(b: Bridge, e: Event): Step {
    match e
    case AskInput(t, spec) => RequestInput(b, t, spec)
    case TypeInput(v) => Step(EditInput(b, v), None, None)
    case ConfirmInputClicked => ConfirmInput(b)
    case CancelInputClicked => CancelInput(b)
    case AskImage(t, host) => RequestImage(b, t, host)
    case FileChosen(f) => Step(ChooseFile(b, f).0, None, None)
    case FileLoaded(url) => Step(LoadFile(b, url), None, None)
    case ConfirmImageClicked => ConfirmImage(b)
    case CancelImageClicked => CancelImage(b)
  }

  /** The promises resolved along a run of events, in order. */
  function Resolutions(b: Bridge, events: seq<Event>): seq<Resolution>
    decreases |events|
  {
    if |events| == 0 then []
    else
      var s := Apply(b, events[0]);
      (if s.resolved.Some? then [s.resolved.value] else []) + Resolutions(s.bridge, events[1..])
  }

  function FinalBridge(b: Bridge, events: seq<Event>): Bridge
    decreases |events|
  {
    if |events| == 0 then b else FinalBridge(Apply(b, events[0]).bridge, events[1..])
  }

  function RequestTokens(events: seq<Event>): set<Token>
    decreases |events|
  {
    if |events| == 0 then {}
    else
      (if events[0].AskInput? || events[0].AskImage? then {events[0].token} else {})
      + RequestTokens(events[1..])
  }

  function Pending(b: Bridge): set<Token> {
    (if b.inputResolver.Some? then {b.inputResolver.value} else {})
    + (if b.imageResolver.Some? then {b.imageResolver.value} else {})
  }

  /** The two slots never hold the same promise. */
  predicate SlotsDistinct(b: Bridge) {
    b.inputResolver.Some? && b.imageResolver.Some? ==> b.inputResolver.value != b.imageResolver.value
  }

  /** Every request in `events` uses a new token. */
  predicate FreshRequests(b: Bridge, events: seq<Event>)
    decreases |events|
  {
    |events| > 0 ==>
      && (events[0].AskInput? || events[0].AskImage? ==>
            events[0].token !in Pending(b) && events[0].token !in RequestTokens(events[1..]))
      && FreshRequests(b, events[1..])
  }

  predicate TokensDistinct(rs: seq<Resolution>) {
    forall i, j :: 0 <= i < j < |rs| ==> rs[i].token != rs[j].token
  }

  /** One step: whatever it resolves was pending (or is the request's own
      token) and is no longer pending afterwards. */
  lemma ApplyResolvesPending(b: Bridge, e: Event)
    requires SlotsDistinct(b)
    requires e.AskInput? || e.AskImage? ==> e.token !in Pending(b)
    ensures var s := Apply(b, e);
            && SlotsDistinct(s.bridge)
            && Pending(s.bridge) <= Pending(b) + (if e.AskInput? || e.AskImage? then {e.token} else {})
            && (s.resolved.Some? ==>
                  && s.resolved.value.token in Pending(b) + (if e.AskInput? || e.AskImage? then {e.token} else {})
                  && s.resolved.value.token !in Pending(s.bridge))
  {
  }

  /** Freshness only depends on which tokens may be pending. */
  lemma FreshRequestsMono(b: Bridge, b': Bridge, extra: set<Token>, events: seq<Event>)
    requires FreshRequests(b, events)
    requires Pending(b') <= Pending(b) + extra
    requires extra !! RequestTokens(events)
    ensures FreshRequests(b', events)
    decreases |events|
  {
    if |events| > 0 {
      assert RequestTokens(events[1..]) <= RequestTokens(events);
      FreshRequestsMono(b, b', extra, events[1..]);
    }
  }

  /** Along any run in which every request uses a new token, no promise is
      resolved twice, and only promises that were pending or requested
      along the run are resolved. */
  lemma {:induction false} ResolvesAtMostOnce(b: Bridge, events: seq<Event>)
    requires SlotsDistinct(b)
    requires FreshRequests(b, events)
    requires Pending(b) !! RequestTokens(events)
    ensures TokensDistinct(Resolutions(b, events))
    ensures forall r :: r in Resolutions(b, events) ==> r.token in Pending(b) + RequestTokens(events)
    decreases |events|
  {
    if |events| > 0 {
      var e := events[0];
      var s := Apply(b, e);
      var rest := events[1..];
      ApplyResolvesPending(b, e);
      var mine: set<Token> := if e.AskInput? || e.AskImage? then {e.token} else {};
      assert RequestTokens(events) == mine + RequestTokens(rest);
      assert Pending(s.bridge) !! RequestTokens(rest);
      FreshRequestsMono(b, s.bridge, mine, rest);
      ResolvesAtMostOnce(s.bridge, rest);
      var tail := Resolutions(s.bridge, rest);
      if s.resolved.Some? {
        var t := s.resolved.value.token;
        assert t !in Pending(s.bridge) + RequestTokens(rest);
        assert forall r :: r in tail ==> r.token != t;
        var all := [s.resolved.value] + tail;
        assert all == Resolutions(b, events);
        forall i, j | 0 <= i < j < |all| ensures all[i].token != all[j].token {
          if i == 0 { assert all[j] in tail; }
          else { assert all[i] == tail[i - 1] && all[j] == tail[j - 1]; }
        }
      }
    }
  }

  /** A second `requestInput` while one is pending drops the first promise:
      no later event can resolve it. */
  lemma OverwrittenInputNeverResolves(b: Bridge, t0: Token, t1: Token, spec: InputSpec,
                                      events: seq<Event>)
    requires b.inputResolver == Some(t0) && b.imageResolver != Some(t0)
    requires t1 != t0 && t1 !in Pending(b)
    requires SlotsDistinct(b)
    requires FreshRequests(RequestInput(b, t1, spec).bridge, events)
    requires (Pending(b) + {t1}) !! RequestTokens(events)
    ensures forall r :: r in Resolutions(RequestInput(b, t1, spec).bridge, events) ==> r.token != t0
  {
    var b1 := RequestInput(b, t1, spec).bridge;
    assert t0 !in Pending(b1);
    ResolvesAtMostOnce(b1, events);
  }

  /** Confirming or cancelling a request resolves it once; a second confirm
      or cancel on the same dialog resolves nothing. */
  lemma ConfirmThenNothing(b: Bridge)
    ensures ConfirmInput(ConfirmInput(b).bridge).resolved.None?
    ensures CancelInput(ConfirmInput(b).bridge).resolved.None?
    ensures ConfirmInput(CancelInput(b).bridge).resolved.None?
    ensures b.image.previewUrl != "" ==> ConfirmImage(ConfirmImage(b).bridge).resolved.None?
    ensures CancelImage(CancelImage(b).bridge).resolved.None?
    ensures ConfirmImage(CancelImage(b).bridge).resolved.None?
  {
  }
}
