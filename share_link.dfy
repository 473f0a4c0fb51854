/**
 * The share link of index.tsx: publishing writes the document into the URL
 * fragment as `encodeURIComponent(btoa(content))`; opening a page whose fragment is
 * not empty reads it back with `atob(decodeURIComponent(fragment))` and shows the
 * document read-only, falling back to the form when decoding fails.
 */
module ShareLink {
  import opened Wrappers
  import opened Base64
  import opened Percent

  /** Text whose every character has a code of at most 255: the only text `btoa` accepts. */
  predicate IsLatin1(text: string) {
    forall i :: 0 <= i < |text| ==> text[i] as int < 256
  }

  function ToBytes(text: string): (b: seq<Byte>)
    requires IsLatin1(text)
    ensures |b| == |text|
  {
    seq(|text|, i requires 0 <= i < |text| => text[i] as int)
  }

  /** The string `atob` returns: one character per byte, with the byte as its code. */
  function FromBytes(b: seq<Byte>): (text: string)
    ensures |text| == |b| && IsLatin1(text)
  {
    seq(|b|, i requires 0 <= i < |b| => b[i] as char)
  }

  lemma FromToBytes(text: string)
    requires IsLatin1(text)
    ensures FromBytes(ToBytes(text)) == text
  {
    var r := FromBytes(ToBytes(text));
    forall i | 0 <= i < |text| ensures r[i] == text[i] {
    }
  }

  /** `btoa`: base64 of the text's character codes; it throws (None) on a code above 255. */
  function BtoA(text: string): (r: Option<string>)
    ensures r.Some? <==> IsLatin1(text)
    ensures r.Some? ==> IsAsciiText(r.value) && (text != [] ==> r.value != [])
  {
    if IsLatin1(text) then Some(Encode(ToBytes(text))) else None
  }

  /** `atob`: the forgiving-base64 decode, the bytes returned as characters; it throws (None) on malformed input. */
  function AtoB(s: string): (r: Option<string>)
    ensures r.Some? ==> IsLatin1(r.value)
  {
    match Decode(s)
    case Some(b) => Some(FromBytes(b))
    case None => None
  }

  /** `encodeURIComponent(btoa(content))`, index.tsx:99. */
  function EncodeContent(content: string): (r: Option<string>)
    ensures r.Some? <==> IsLatin1(content)
    ensures r.Some? && content != [] ==> r.value != []
    ensures r.Some? ==> forall i :: 0 <= i < |r.value| ==> r.value[i] != '+' && r.value[i] != '/' && r.value[i] != '=' && r.value[i] != '#'
  {
    match BtoA(content)
    case Some(b64) => Some(Escape(b64))
    case None => None
  }

  /** `atob(decodeURIComponent(fragment))`, index.tsx:18; None where either call throws. */
  function DecodeFragment(fragment: string): (r: Option<string>)
    ensures r.Some? <==> Unescape(fragment).Some? && Decode(Unescape(fragment).value).Some?
    ensures r.Some? ==> IsLatin1(r.value)
  {
    match Unescape(fragment)
    case Some(b64) => AtoB(b64)
    case None => None
  }

  /** Round trip: every Latin-1 text comes back unchanged from the fragment it is written to. */
  lemma DecodeEncodeContent(content: string)
    requires IsLatin1(content)
    ensures EncodeContent(content).Some?
    ensures DecodeFragment(EncodeContent(content).value) == Some(content)
  {
    var b64 := Encode(ToBytes(content));
    UnescapeEscape(b64);
    DecodeEncode(ToBytes(content));
    FromToBytes(content);
  }

  const ShareErrorMessage := "Erreur lors de la création du lien de partage."

  /** What the publish button leaves on the page. */
  datatype PublishOutcome =
    | NoLink                      // empty document: nothing happens
    | Link(url: string)           // the link shown in the share box
    | ShareError(message: string) // encoding threw: the error message shown instead

  /**
   * The publish handler, index.tsx:94-109: no link for an empty document, otherwise
   * the page's origin and path, '#', and the encoded document; the error message
   * when the document cannot be encoded.
   */
  function Publish(origin: string, pathname: string, content: string): (r: PublishOutcome)
    ensures content == [] ==> r == NoLink
    ensures content != [] && !IsLatin1(content) ==> r == ShareError(ShareErrorMessage)
    ensures r.Link? <==> content != [] && IsLatin1(content)
    ensures r.Link? ==> r.url == origin + pathname + "#" + EncodeContent(content).value
  {
    if content == [] then NoLink
    else
      match EncodeContent(content)
      case Some(fragment) => Link(origin + pathname + "#" + fragment)
      case None => ShareError(ShareErrorMessage)
  }

  /** The two ways the page can start. */
  datatype Mode = ViewMode(document: string) | FormMode

  /**
   * The start-up choice, index.tsx:15-56, on `location.hash` (empty, or '#' and the
   * fragment): a fragment of at least one character that decodes selects the
   * read-only view of the decoded document; anything else selects the form.
   */
  function StartupMode(hash: string): (m: Mode)
    ensures m.ViewMode? <==> |hash| > 1 && DecodeFragment(hash[1..]).Some?
    ensures m.ViewMode? ==> Some(m.document) == DecodeFragment(hash[1..])
  {
    if |hash| > 1 then
      match DecodeFragment(hash[1..])
      case Some(text) => ViewMode(text)
      case None => FormMode
    else FormMode
  }

  /** Cutting a link back into the page address, '#' and the fragment. */
  lemma LinkSlices(page: string, fragment: string)
    ensures (page + "#" + fragment)[..|page| + 1] == page + "#"
    ensures (page + "#" + fragment)[|page|..] == "#" + fragment
    ensures ("#" + fragment)[1..] == fragment
  {
  }

  /** The hash '#' and the fragment of a non-empty Latin-1 document start the view of that document. */
  lemma OpenFragment(content: string)
    requires content != [] && IsLatin1(content)
    ensures EncodeContent(content).Some?
    ensures StartupMode("#" + EncodeContent(content).value) == ViewMode(content)
  {
    DecodeEncodeContent(content);
    var fragment := EncodeContent(content).value;
    assert |"#" + fragment| > 1;
    assert ("#" + fragment)[1..] == fragment;
  }

  /**
   * Publishing a non-empty Latin-1 document and opening the link it gives shows
   * that same document: the link is the page address, '#', and a non-empty fragment
   * from which start-up decodes the document.
   */
  lemma OpenPublishedLink(origin: string, pathname: string, content: string)
    requires content != [] && IsLatin1(content)
    ensures var r := Publish(origin, pathname, content);
      var page := origin + pathname;
      r.Link? && |r.url| > |page| + 1 && r.url[..|page| + 1] == page + "#"
      && StartupMode(r.url[|page|..]) == ViewMode(content)
  {
    OpenFragment(content);
    var page := origin + pathname;
    LinkSlices(page, EncodeContent(content).value);
  }

  /** A fragment that is not valid percent-encoding selects the form. */
  lemma MalformedFragmentSelectsForm()
    ensures DecodeFragment("%not-valid-base64%") == None
    ensures StartupMode("#%not-valid-base64%") == FormMode
  {
    assert HexValue('n') == None;
    assert ("#%not-valid-base64%")[1..] == "%not-valid-base64%";
  }
}
