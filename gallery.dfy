/** The gallery page: the focus view's current-image index, and the file name a download is
    saved under. JavaScript strings are sequences of UTF-16 code units, and the page slices
    and rewrites them unit by unit, so prompts here are sequences of code units. */
module Gallery {
  import opened Common

  /** A UTF-16 code unit. */
  type CodeUnit = u: int | 0 <= u < 0x1_0000
  /** A JavaScript string. */
  type JsString = seq<CodeUnit>

  /** The code units of a string of Basic Multilingual Plane characters. */
  function Js(s: string): (r: JsString)
    requires forall i :: 0 <= i < |s| ==> s[i] as int < 0x1_0000
    ensures |r| == |s|
  {
    seq(|s|, i requires 0 <= i < |s| => s[i] as int)
  }

  /** A row of `generated_images` as the page holds it (lines 10-16). */
  datatype GalleryImage = GalleryImage(id: string, prompt: JsString, style: string, imageUrl: string, createdAt: string)

  // ---------------------------------------------------------------------------------------
  // Focus-view navigation

  /** `nextImage` (lines 106-108): one step forward, wrapping from the last image to the first. */
  function NextIndex(i: nat, n: nat): (r: nat)
    requires i < n
    ensures r < n
    ensures r == if i == n - 1 then 0 else i + 1
  {
    (i + 1) % n
  }

  /** `prevImage` (lines 110-112): one step back, wrapping from the first image to the last.
      The operand `i - 1 + n` is never negative, so JavaScript's `%` and Dafny's agree. */
  function PrevIndex(i: nat, n: nat): (r: nat)
    requires i < n
    ensures r < n
    ensures r == if i == 0 then n - 1 else i - 1
  {
    (i - 1 + n) % n
  }

  lemma PrevUndoesNext(i: nat, n: nat)
    requires i < n
    ensures PrevIndex(NextIndex(i, n), n) == i
  {
  }

  lemma NextUndoesPrev(i: nat, n: nat)
    requires i < n
    ensures NextIndex(PrevIndex(i, n), n) == i
  {
  }

  /** The index reached from `i` by `k` clicks on the next button. */
  function Advance(i: nat, n: nat, k: nat): (r: nat)
    requires i < n
    ensures r < n
  {
    if k == 0 then i else NextIndex(Advance(i, n, k - 1), n)
  }

  /** Up to a full round, `k` steps forward land `k` places on, wrapping once past the end. */
  lemma {:induction false} AdvanceOffset(i: nat, n: nat, k: nat)
    requires i < n && k <= n
    ensures Advance(i, n, k) == if i + k < n then i + k else i + k - n
  {
    if k > 0 {
      AdvanceOffset(i, n, k - 1);
    }
  }

  /** `n` clicks on the next button return to the starting image. */
  lemma FullCycle(i: nat, n: nat)
    requires i < n
    ensures Advance(i, n, n) == i
  {
    AdvanceOffset(i, n, n);
  }

  /** The focus view's state: the loaded images and `currentIndex` (lines 19, 21). */
  class FocusView {
    var images: seq<GalleryImage>
    var currentIndex: nat

    ghost predicate Valid()
      reads this
    {
      if images == [] then currentIndex == 0 else currentIndex < |images|
    }

    /** The page after `fetchImages` has stored its rows (lines 19-21, 39); a failed fetch
        leaves the list empty. */
    constructor (loaded: seq<GalleryImage>)
      ensures Valid() && images == loaded && currentIndex == 0
    {
      images := loaded;
      currentIndex := 0;
    }

    /** The next button, shown only when there is more than one image. */
    method NextImage()
      requires Valid() && images != []
      modifies this`currentIndex
      ensures Valid()
      ensures currentIndex == NextIndex(old(currentIndex), |images|)
    {
      currentIndex := (currentIndex + 1) % |images|;
    }

    /** The previous button, shown only when there is more than one image. */
    method PrevImage()
      requires Valid() && images != []
      modifies this`currentIndex
      ensures Valid()
      ensures currentIndex == PrevIndex(old(currentIndex), |images|)
    {
      currentIndex := (currentIndex - 1 + |images|) % |images|;
    }

    /** A click on thumbnail `k` (line 337). */
    method SelectThumbnail(k: nat)
      requires Valid() && k < |images|
      modifies this`currentIndex
      ensures Valid() && currentIndex == k
    {
      currentIndex := k;
    }

    /** The counter `currentIndex + 1 / images.length` (line 292). */
    function Counter(): (r: (nat, nat))
      reads this
      requires Valid() && images != []
      ensures 1 <= r.0 <= r.1 == |images|
      ensures r.0 - 1 == currentIndex
    {
      (currentIndex + 1, |images|)
    }
  }

  // ---------------------------------------------------------------------------------------
  // Download naming

  /** The characters the prompt part keeps: `[a-zA-Z0-9가-힣]`. */
  predicate Allowed(u: CodeUnit) {
    || 'a' as int <= u <= 'z' as int
    || 'A' as int <= u <= 'Z' as int
    || '0' as int <= u <= '9' as int
    || 0xAC00 <= u <= 0xD7A3
  }

  const Underscore: CodeUnit := '_' as int

  /** At most this many code units of the prompt go into the file name. */
  const PromptPartLength := 20

  /** `.replace(/[^a-zA-Z0-9가-힣]/g, '_')`: every unit outside the allowed classes becomes `_`. */
  function ReplaceDisallowed(s: JsString): (r: JsString)
    ensures |r| == |s|
    ensures forall i :: 0 <= i < |s| ==> r[i] == if Allowed(s[i]) then s[i] else Underscore
  {
    if s == [] then []
    else [if Allowed(s[0]) then s[0] else Underscore] + ReplaceDisallowed(s[1..])
  }

  /** The prompt part of the file name: the first 20 code units, rewritten (line 79). */
  function PromptPart(prompt: JsString): (r: JsString)
    ensures |r| == if |prompt| < PromptPartLength then |prompt| else PromptPartLength
    ensures forall i :: 0 <= i < |r| ==> Allowed(r[i]) || r[i] == Underscore
    ensures forall i :: 0 <= i < |r| ==> (Allowed(prompt[i]) ==> r[i] == prompt[i])
    ensures forall i :: 0 <= i < |r| ==> (!Allowed(prompt[i]) ==> r[i] == Underscore)
  {
    ReplaceDisallowed(if |prompt| < PromptPartLength then prompt else prompt[..PromptPartLength])
  }

  /** Rewriting a prompt part again changes nothing. */
  lemma PromptPartIdempotent(prompt: JsString)
    ensures PromptPart(PromptPart(prompt)) == PromptPart(prompt)
  {
    var p := PromptPart(prompt);
    assert forall i :: 0 <= i < |p| ==> Allowed(p[i]) || p[i] == Underscore;
  }

  /** A short prompt of allowed characters goes into the file name as it is. */
  lemma PromptPartKeepsCleanPrompt(prompt: JsString)
    requires |prompt| <= PromptPartLength
    requires forall i :: 0 <= i < |prompt| ==> Allowed(prompt[i])
    ensures PromptPart(prompt) == prompt
  {
  }

  /** The type a download is judged by (line 67): the `content-type` header unless it is
      missing or empty, then the blob's type unless empty, then `image/png`. */
  function EffectiveContentType(header: Option<JsString>, blobType: JsString): (r: JsString)
    ensures r != []
    ensures header.Some? && header.value != [] ==> r == header.value
    ensures (header.None? || header.value == []) && blobType != [] ==> r == blobType
    ensures (header.None? || header.value == []) && blobType == [] ==> r == Js("image/png")
  {
    if header.Some? && header.value != [] then header.value
    else if blobType != [] then blobType
    else Js("image/png")
  }

  /** The extension (lines 68-73): `jpg` for any type mentioning `jpeg` or `jpg`, tested
      first; otherwise `webp` for one mentioning `webp`; otherwise `png`. */
  function ExtensionFor(contentType: JsString): (ext: string)
    ensures ext == "jpg" || ext == "webp" || ext == "png"
    ensures Contains(contentType, Js("jpeg")) || Contains(contentType, Js("jpg")) ==> ext == "jpg"
    ensures ext == "jpg" ==> Contains(contentType, Js("jpeg")) || Contains(contentType, Js("jpg"))
    ensures ext == "webp" <==> ext != "jpg" && Contains(contentType, Js("webp"))
  {
    if Contains(contentType, Js("jpeg")) || Contains(contentType, Js("jpg")) then "jpg"
    else if Contains(contentType, Js("webp")) then "webp"
    else "png"
  }

  /** The usual image types map to their own extensions, and a download with no type at all
      is saved as `png`. */
  lemma StandardTypeExtensions()
    ensures ExtensionFor(Js("image/jpeg")) == "jpg"
    ensures ExtensionFor(Js("image/webp")) == "webp"
    ensures ExtensionFor(Js("image/png")) == "png"
    ensures ExtensionFor(EffectiveContentType(None, [])) == "png"
  {
    assert OccursAt(Js("image/jpeg"), Js("jpeg"), 6);
    var webp := Js("image/webp");
    assert OccursAt(webp, Js("webp"), 6);
    AbsentHead(webp, Js("jpeg"));
    AbsentHead(webp, Js("jpg"));
    var png := Js("image/png");
    AbsentHead(png, Js("jpeg"));
    AbsentHead(png, Js("jpg"));
    AbsentHead(png, Js("webp"));
  }

  /** A string of decimal digits. */
  predicate Digits(ds: JsString) {
    forall i :: 0 <= i < |ds| ==> '0' as int <= ds[i] <= '9' as int
  }

  /** The number a string of decimal digits denotes, most significant digit first. */
  function DigitsValue(ds: JsString): nat
    requires Digits(ds)
  {
    if ds == [] then 0 else DigitsValue(ds[..|ds| - 1]) * 10 + (ds[|ds| - 1] - '0' as int)
  }

  /** `Date.now()` written in decimal, without leading zeros. */
  function Decimal(n: nat): (r: JsString)
    ensures r != [] && Digits(r)
    ensures |r| > 1 ==> r[0] != '0' as int
  {
    if n < 10 then ['0' as int + n] else Decimal(n / 10) + ['0' as int + n % 10]
  }

  /** The digits of the time stamp denote the clock reading. */
  lemma {:induction false} DecimalValue(n: nat)
    ensures DigitsValue(Decimal(n)) == n
  {
    if n >= 10 {
      DecimalValue(n / 10);
      var r := Decimal(n);
      assert r[..|r| - 1] == Decimal(n / 10);
    }
  }

  const FilePrefix: JsString := Js("교육철학-")

  /** A unit that may follow the fixed prefix of a download name. */
  predicate NameUnit(u: CodeUnit) {
    Allowed(u) || u == Underscore || u == '-' as int || u == '.' as int
  }

  predicate NameUnits(s: JsString) {
    forall i :: 0 <= i < |s| ==> NameUnit(s[i])
  }

  /** The `.` and the extension that end a download name, made of name units. */
  function DotExtension(ext: string): (r: JsString)
    requires ext == "jpg" || ext == "webp" || ext == "png"
    ensures |r| == |ext| + 1 && r[0] == '.' as int
    ensures forall i :: 1 <= i < |r| ==> r[i] == ext[i - 1] as int
    ensures NameUnits(r)
  {
    Js("." + ext)
  }

  /** Decimal digits are name units. */
  lemma DigitsNameUnits(ds: JsString)
    requires Digits(ds)
    ensures NameUnits(ds)
  {
    forall i | 0 <= i < |ds|
      ensures NameUnit(ds[i])
    {
      assert Allowed(ds[i]);
    }
  }

  /** `name` is `prefix`, then `part`, then `-` and `stamp`, then `dotExt`. */
  predicate NameLayout(name: JsString, prefix: JsString, part: JsString, stamp: JsString, dotExt: JsString) {
    && |name| == |prefix| + |part| + 1 + |stamp| + |dotExt|
    && name[..|prefix|] == prefix
    && name[|prefix|..|prefix| + |part|] == part
    && name[|prefix| + |part|..|name| - |dotExt|] == ['-' as int] + stamp
    && name[|name| - |dotExt|..] == dotExt
  }

  /** The `download` attribute of the anchor (line 79), for the extension chosen before it. */
  function DownloadName(prompt: JsString, now: nat, ext: string): (r: JsString)
    requires ext == "jpg" || ext == "webp" || ext == "png"
    ensures NameLayout(r, FilePrefix, PromptPart(prompt), Decimal(now), DotExtension(ext))
    ensures forall i :: |FilePrefix| <= i < |r| ==> NameUnit(r[i])
  {
    var part := PromptPart(prompt);
    var stamp := Decimal(now);
    var dotExt := DotExtension(ext);
    DigitsNameUnits(stamp);
    AssembledName(FilePrefix, part, stamp, dotExt);
    FilePrefix + (part + (['-' as int] + stamp + dotExt))
  }

  /** How the pieces of a download name sit in the joined string. */
  lemma AssembledName(prefix: JsString, part: JsString, stamp: JsString, dotExt: JsString)
    requires NameUnits(part) && NameUnits(stamp) && NameUnits(dotExt)
    ensures NameLayout(prefix + (part + (['-' as int] + stamp + dotExt)), prefix, part, stamp, dotExt)
    ensures var r := prefix + (part + (['-' as int] + stamp + dotExt));
      forall i :: |prefix| <= i < |r| ==> NameUnit(r[i])
  {
    var tail := ['-' as int] + stamp + dotExt;
    var r := prefix + (part + tail);
    assert r[|prefix|..] == part + tail;
    forall i | |prefix| <= i < |r|
      ensures NameUnit(r[i])
    {
      assert r[i] == (part + tail)[i - |prefix|];
    }
    assert r[|prefix|..|prefix| + |part|] == (part + tail)[..|part|];
    assert r[|r| - |dotExt|..] == tail[|tail| - |dotExt|..];
    assert r[|prefix| + |part|..|r| - |dotExt|] == tail[..|tail| - |dotExt|];
  }

  /** What reading the body with `response.blob()` gave: a rejected read, or the blob's type. */
  datatype BodyRead = BodyFailed | Blob(blobType: JsString)

  /** What the fetch of the image gave: a thrown network error, or a response whose body is
      read only when its status is OK. */
  datatype FetchReply = NetworkError | Reply(ok: bool, status: nat, contentType: Option<JsString>, body: BodyRead)

  /** The outcome of `handleDownload`: an error toast, or an anchor that saves the blob. */
  datatype Download = DownloadFailed | Saved(fileName: JsString)

  /** `handleDownload` (lines 52-104), with the clock reading `now` as a parameter. A thrown
      fetch, a non-OK status and a rejected body read all end in the failure toast. */
  function HandleDownload(reply: FetchReply, prompt: JsString, now: nat): (d: Download)
    ensures d.Saved? <==> reply.Reply? && reply.ok && reply.body.Blob?
    ensures d.Saved? ==>
      d.fileName == DownloadName(prompt, now, ExtensionFor(EffectiveContentType(reply.contentType, reply.body.blobType)))
  {
    match reply
    case NetworkError => DownloadFailed
    case Reply(ok, _, contentType, body) =>
      if !ok then DownloadFailed
      else match body
        case BodyFailed => DownloadFailed
        case Blob(blobType) => Saved(DownloadName(prompt, now, ExtensionFor(EffectiveContentType(contentType, blobType))))
  }
}
