/** The generation page: the input guards, the style table, the prompt sent to the image
    endpoint and the record saved afterwards. The endpoint and the table insert are calls the
    page cannot see into; their replies are parameters. */
module Generate {
  import opened Common

  /** One entry of the style table: the key the select box stores, the name it shows, and the phrase
      appended to the prompt. */
  datatype Style = Style(value: string, displayName: string, suffix: string)

  /** The six styles (lines 20-27). */
  const Styles: seq<Style> := [
    Style("watercolor", "따뜻한 수채화 스타일", "in a vibrant watercolor style"),
    Style("illustration", "동화 일러스트", "as a cozy storybook illustration"),
    Style("minimalist", "미니멀 라인 아트", "as minimalist line art, clean background"),
    Style("fantasy", "판타지 아트", "as glowing fantasy art"),
    Style("anime", "애니메이션 스타일", "as a detailed anime scene"),
    Style("cyberpunk", "사이버펑크", "in cyberpunk style with neon colors")
  ]

  // ---------------------------------------------------------------------------------------
  // Trimming and the input guards

  /** The characters `String.prototype.trim` removes: ECMAScript's WhiteSpace (tab, vertical
      tab, form feed, space, no-break space, byte order mark and the other space separators)
      and LineTerminator characters. */
  predicate JsSpace(c: char) {
    var u := c as int;
    || u == 0x09 || u == 0x0B || u == 0x0C || u == 0x20 || u == 0xA0 || u == 0xFEFF
    || u == 0x1680 || (0x2000 <= u <= 0x200A) || u == 0x202F || u == 0x205F || u == 0x3000
    || u == 0x0A || u == 0x0D || u == 0x2028 || u == 0x2029
  }

  /** A prompt of nothing but white space. */
  predicate Blank(s: string) {
    forall i :: 0 <= i < |s| ==> JsSpace(s[i])
  }

  /** Leading white space removed. */
  function TrimStart(s: string): (r: string)
    ensures |r| <= |s|
    ensures r != [] ==> !JsSpace(r[0])
  {
    if s != [] && JsSpace(s[0]) then TrimStart(s[1..]) else s
  }

  /** What leading trimming removes is white space, and it keeps the rest as it is. */
  lemma {:induction false} TrimStartDrops(s: string)
    ensures TrimStart(s) == s[|s| - |TrimStart(s)|..]
    ensures Blank(s[..|s| - |TrimStart(s)|])
  {
    if s != [] && JsSpace(s[0]) {
      TrimStartDrops(s[1..]);
      var r := TrimStart(s);
      assert s[1..][..|s| - 1 - |r|] == s[1..|s| - |r|];
    }
  }

  /** Trailing white space removed. */
  function TrimEnd(s: string): (r: string)
    ensures |r| <= |s|
    ensures r != [] ==> !JsSpace(r[|r| - 1])
  {
    if s != [] && JsSpace(s[|s| - 1]) then TrimEnd(s[..|s| - 1]) else s
  }

  /** What trailing trimming removes is white space, and it keeps the rest as it is. */
  lemma {:induction false} TrimEndDrops(s: string)
    ensures TrimEnd(s) == s[..|TrimEnd(s)|]
    ensures Blank(s[|TrimEnd(s)|..])
  {
    if s != [] && JsSpace(s[|s| - 1]) {
      TrimEndDrops(s[..|s| - 1]);
      var r := TrimEnd(s);
      assert s[..|s| - 1][|r|..] == s[|r|..|s| - 1];
    }
  }

  /** `s.trim()`. */
  function Trim(s: string): (r: string)
    ensures r != [] ==> !JsSpace(r[0]) && !JsSpace(r[|r| - 1])
  {
    var t := TrimStart(s);
    if t != [] then TrimEndKeepsHead(t); TrimEnd(t) else TrimEnd(t)
  }

  /** A prompt trims to nothing exactly when it is all white space. */
  lemma TrimEmptyIffBlank(s: string)
    ensures Trim(s) == [] <==> Blank(s)
  {
    var t := TrimStart(s);
    TrimStartDrops(s);
    TrimEndDrops(t);
    assert s == s[..|s| - |t|] + t;
    if t != [] {
      TrimEndKeepsHead(t);
    }
  }

  /** Trailing trimming keeps a non-space first character. */
  lemma {:induction false} TrimEndKeepsHead(t: string)
    requires t != [] && !JsSpace(t[0])
    ensures TrimEnd(t) != [] && TrimEnd(t)[0] == t[0]
  {
    if |t| > 1 && JsSpace(t[|t| - 1]) {
      TrimEndKeepsHead(t[..|t| - 1]);
    }
  }

  /** Why a click on the generate button is turned away, if it is (lines 30-46): a blank
      prompt is checked first, then a missing style. */
  datatype Verdict = AskForPrompt | AskForStyle | Accepted

  function Validate(prompt: string, style: string): (v: Verdict)
    ensures v == AskForPrompt <==> Trim(prompt) == ""
    ensures v == AskForStyle <==> Trim(prompt) != "" && style == ""
    ensures v == Accepted <==> Trim(prompt) != "" && style != ""
  {
    TrimEmptyIffBlank(prompt);
    if Blank(prompt) then AskForPrompt
    else if style == "" then AskForStyle
    else Accepted
  }

  /** The button's enabled state (line 209). */
  function ButtonEnabled(isGenerating: bool, prompt: string, style: string): (b: bool)
    ensures b <==> !isGenerating && Validate(prompt, style) == Accepted
  {
    TrimEmptyIffBlank(prompt);
    !(isGenerating || Trim(prompt) == "" || style == "")
  }

  // ---------------------------------------------------------------------------------------
  // The request prompt

  /** `table.find(s => s.value === key)`: the first entry with that key. */
  function FindStyle(table: seq<Style>, key: string): (r: Option<Style>)
    ensures r.None? <==> forall i :: 0 <= i < |table| ==> table[i].value != key
    ensures r.Some? ==> r.value.value == key
    ensures r.Some? ==>
      exists i :: 0 <= i < |table| && table[i] == r.value && (forall j :: 0 <= j < i ==> table[j].value != key)
  {
    if table == [] then None
    else if table[0].value == key then
      assert table[0] == table[0];
      Some(table[0])
    else
      var r := FindStyle(table[1..], key);
      assert forall i :: 1 <= i < |table| ==> table[i] == table[1..][i - 1];
      r
  }

  /** No two styles share a key or a suffix. */
  lemma StylesDistinct()
    ensures forall i, j :: 0 <= i < j < |Styles| ==> Styles[i].value != Styles[j].value
    ensures forall i, j :: 0 <= i < j < |Styles| ==> Styles[i].suffix != Styles[j].suffix
  {
  }

  /** Every style the select box offers is found in the table. */
  lemma OfferedStylesFound(k: nat)
    requires k < |Styles|
    ensures FindStyle(Styles, Styles[k].value) == Some(Styles[k])
  {
    StylesDistinct();
  }

  /** `${prompt}, ${selectedStyle?.prompt}` (lines 51-52); a key missing from the table
      renders `undefined`, which the select box never lets happen. */
  function FullPrompt(prompt: string, key: string): (r: string)
    ensures forall k :: 0 <= k < |Styles| && Styles[k].value == key ==> r == prompt + ", " + Styles[k].suffix
    ensures (forall k :: 0 <= k < |Styles| ==> Styles[k].value != key) ==> r == prompt + ", undefined"
  {
    StylesDistinct();
    match FindStyle(Styles, key)
    case Some(s) => prompt + ", " + s.suffix
    case None => prompt + ", undefined"
  }

  /** Different styles send different request prompts for the same user prompt. */
  lemma FullPromptTellsStylesApart(prompt: string, a: nat, b: nat)
    requires a < |Styles| && b < |Styles| && a != b
    ensures FullPrompt(prompt, Styles[a].value) != FullPrompt(prompt, Styles[b].value)
  {
    StylesDistinct();
    var pa := FullPrompt(prompt, Styles[a].value);
    var pb := FullPrompt(prompt, Styles[b].value);
    assert pa[|prompt| + 2..] == Styles[a].suffix;
    assert pb[|prompt| + 2..] == Styles[b].suffix;
  }

  // ---------------------------------------------------------------------------------------
  // The page

  /** What the request to `/api/generate-image` gave: a thrown fetch, a non-OK status, a body
      that is not JSON, or a JSON body whose `imageUrl` may be missing. */
  datatype ApiReply = FetchThrew | HttpError(status: nat) | BadJson | Json(imageUrl: Option<string>)

  /** What the insert into `generated_images` gave. */
  datatype InsertReply = InsertFailed(message: string) | Inserted(id: string)

  /** The fields the page inserts (lines 76-80). */
  datatype ImageRecord = ImageRecord(prompt: string, style: string, imageUrl: string)

  /** The toast the click ends with. */
  datatype Toast = NoToast | PromptMissingToast | StyleMissingToast | CreatedToast | FailedToast

  /** The JSON reply carries a usable (non-empty) image URL. */
  predicate HasImage(api: ApiReply) {
    api.Json? && api.imageUrl.Some? && api.imageUrl.value != ""
  }

  /** The page's state (lines 12-16). */
  class GeneratePage {
    var prompt: string
    var style: string
    var isGenerating: bool
    var generatedImage: Option<string>
    var imageId: Option<string>

    constructor ()
      ensures prompt == "" && style == "" && !isGenerating
      ensures generatedImage == None && imageId == None
    {
      prompt, style, isGenerating := "", "", false;
      generatedImage, imageId := None, None;
    }

    /** The text area's change handler (line 184). */
    method SetPrompt(p: string)
      modifies this`prompt
      ensures prompt == p
    {
      prompt := p;
    }

    /** The select box's change handler (line 192). */
    method SetStyle(s: string)
      modifies this`style
      ensures style == s
    {
      style := s;
    }

    /** `handleGenerate` (lines 29-105). It returns the prompt sent to the endpoint, the record
        handed to the insert, and the toast shown; `api` and `insert` are the replies of the
        two calls, consulted only when the call is made. */
    method HandleGenerate(api: ApiReply, insert: InsertReply)
      returns (request: Option<string>, saved: Option<ImageRecord>, toast: Toast)
      modifies this`isGenerating, this`generatedImage, this`imageId
      // a rejected click sends nothing and changes nothing
      ensures Validate(prompt, style) != Accepted ==>
        && request.None? && saved.None?
        && toast == (if Validate(prompt, style) == AskForPrompt then PromptMissingToast else StyleMissingToast)
        && isGenerating == old(isGenerating)
        && generatedImage == old(generatedImage) && imageId == old(imageId)
      // an accepted click sends the composed prompt and ends with the button released
      ensures Validate(prompt, style) == Accepted ==> request == Some(FullPrompt(prompt, style)) && !isGenerating
      ensures Validate(prompt, style) == Accepted ==>
        saved == (if HasImage(api) then Some(ImageRecord(prompt, style, api.imageUrl.value)) else None)
      ensures Validate(prompt, style) == Accepted ==>
        generatedImage == (if HasImage(api) then Some(api.imageUrl.value) else old(generatedImage))
      ensures Validate(prompt, style) == Accepted && HasImage(api) && insert.Inserted? ==> imageId == Some(insert.id)
      ensures Validate(prompt, style) == Accepted && !(HasImage(api) && insert.Inserted?) ==> imageId == old(imageId)
      ensures Validate(prompt, style) == Accepted ==>
        toast == (if HasImage(api) then CreatedToast else if api.Json? then NoToast else FailedToast)
    {
      request, saved := None, None;
      TrimEmptyIffBlank(prompt);
      if Trim(prompt) == "" {
        toast := PromptMissingToast;
        return;
      }
      if style == "" {
        toast := StyleMissingToast;
        return;
      }
      isGenerating := true;
      request := Some(FullPrompt(prompt, style));
      if HasImage(api) {
        // `data.imageUrl` is truthy: show it and save the record
        var url := api.imageUrl.value;
        generatedImage := Some(url);
        saved := Some(ImageRecord(prompt, style, url));
        if insert.Inserted? {
          imageId := Some(insert.id);
        }
        toast := CreatedToast;
      } else if api.Json? {
        // a reply without an image URL: nothing is shown or stored
        toast := NoToast;
      } else {
        // a thrown fetch, a non-OK status or a body that is not JSON
        toast := FailedToast;
      }
      isGenerating := false;
    }
  }

  /** The composed prompt sent to the endpoint extends the user's own prompt, which is the
      one the record keeps, so the two always differ. */
  lemma SavedPromptIsNotRequestPrompt(prompt: string, key: string)
    ensures prompt < FullPrompt(prompt, key)
    ensures FullPrompt(prompt, key)[|prompt|..|prompt| + 2] == ", "
  {
    var phrase := match FindStyle(Styles, key) case Some(st) => st.suffix case None => "undefined";
    assert FullPrompt(prompt, key) == prompt + ", " + phrase;
    Extends(prompt, phrase);
  }

  /** `a + ", " + b` extends `a`, with the comma right after it. */
  lemma Extends(a: string, b: string)
    ensures a < a + ", " + b
    ensures (a + ", " + b)[|a|..|a| + 2] == ", "
  {
    assert (a + ", " + b)[..|a|] == a;
  }
}
