/** The shareable playback link of `getStreamUrl`: the first entry of the
    playback response's `playbackUrls` is placed, percent-encoded, into a
    fixed stream-test page address that always says `drm=widevine`. A small
    URL query reader (first '?', up to '#', pairs split on '&', name and
    value split at the first '=', value percent-decoded) serves as the
    independent check that the link carries both URLs intact. */
module Stream {
  import opened Wrappers
  import opened JsText
  import UriComponent

  /** One entry of the playback response's `playbackUrls`. */
  datatype PlaybackUrl = PlaybackUrl(url: string, licenseurl: string)

  /** What `getStreamUrl` returns: the manifest URL, the license URL and
      the shareable link (the source reuses the name `playbackUrls` for it). */
  datatype StreamInfo = StreamInfo(url: string, licenseurl: string, playbackUrls: string)

  const PreviewTool := "https://bitmovin.com/demos/stream-test"

  /** The link for a manifest URL and a license URL. */
  function PreviewLink(manifest: string, license: string): string {
    PreviewTool + "?format=dash&manifest=" + UriComponent.Encode(manifest) +
    "&drm=widevine&license=" + UriComponent.Encode(license)
  }

  /** `getStreamUrl` once the playback response is in: only the first entry
      is used; the link's `manifest` and `license` parameters decode to that
      entry's URLs, and its `drm` parameter is always `widevine`. */
  function StreamUrl(playbackUrls: seq<PlaybackUrl>): (info: StreamInfo)
    requires |playbackUrls| > 0
    ensures info.url == playbackUrls[0].url && info.licenseurl == playbackUrls[0].licenseurl
    ensures QueryParam(info.playbackUrls, "manifest") == Some(info.url)
    ensures QueryParam(info.playbackUrls, "license") == Some(info.licenseurl)
    ensures QueryParam(info.playbackUrls, "drm") == Some("widevine")
    ensures QueryParam(info.playbackUrls, "format") == Some("dash")
  {
    var first := playbackUrls[0];
    LinkRoundTrip(first.url, first.licenseurl);
    StreamInfo(first.url, first.licenseurl, PreviewLink(first.url, first.licenseurl))
  }

  /** Entries after the first one have no influence on the result. */
  lemma FirstEntryOnly(a: seq<PlaybackUrl>, b: seq<PlaybackUrl>)
    requires |a| > 0 && |b| > 0 && a[0] == b[0]
    ensures StreamUrl(a) == StreamUrl(b)
  {
  }

  // ---------------------------------------------------------------------
  // Reading a URL query

  /** The query of a URL: what follows the first '?', up to the first '#'. */
  function Query(link: string): Option<string> {
    match IndexOf(link, "?")
    case None => None
    case Some(i) =>
      var q := link[i + 1..];
      match IndexOf(q, "#")
      case None => Some(q)
      case Some(j) => Some(q[..j])
  }

  /** A query pair split at its first '='; a pair without '=' has an empty
      value. */
  function NameValue(pair: string): (string, string) {
    match IndexOf(pair, "=")
    case None => (pair, "")
    case Some(i) => (pair[..i], pair[i + 1..])
  }

  /** The decoded value of the first pair named `key`. */
  function Lookup(pairs: seq<string>, key: string): Option<string> {
    if pairs == [] then None
    else
      var (name, value) := NameValue(pairs[0]);
      if name == key then UriComponent.Decode(value) else Lookup(pairs[1..], key)
  }

  function QueryParam(link: string, key: string): Option<string> {
    match Query(link)
    case None => None
    case Some(q) => Lookup(Split(q, "&"), key)
  }

  // ---------------------------------------------------------------------
  // Reading any query of `name=value` pairs

  /** `name=value` */
  function Pair(name: string, value: string): string {
    name + "=" + value
  }

  lemma PairOf(name: string, value: string)
    requires Avoids(name, "=")
    ensures NameValue(Pair(name, value)) == (name, value)
  {
    IndexOfAfter(name, "=", value);
    var s := name + "=" + value;
    assert s[..|name|] == name && s[|name| + 1..] == value;
  }

  /** A pair whose name and value avoid the delimiters avoids them too. */
  lemma PairAvoids(name: string, value: string, delimiters: string)
    requires '=' !in delimiters && Avoids(name, delimiters) && Avoids(value, delimiters)
    ensures Avoids(Pair(name, value), delimiters)
  {
    assert Avoids("=", delimiters);
    AvoidsConcat(name, "=", delimiters);
    AvoidsConcat(name + "=", value, delimiters);
  }

  /** Joining parts that avoid some delimiters, with a separator that also
      avoids them, gives text that avoids them. */
  lemma {:induction false} JoinAvoids(parts: seq<string>, sep: string, delimiters: string)
    requires Avoids(sep, delimiters)
    requires forall j :: 0 <= j < |parts| ==> Avoids(parts[j], delimiters)
    ensures Avoids(Join(parts, sep), delimiters)
  {
    if |parts| > 1 {
      JoinAvoids(parts[1..], sep, delimiters);
      AvoidsConcat(parts[0], sep, delimiters);
      AvoidsConcat(parts[0] + sep, Join(parts[1..], sep), delimiters);
    }
  }

  /** Lookup finds the first pair with the name asked for. */
  lemma {:induction false} LookupFirst(pairs: seq<string>, k: nat, key: string)
    requires k < |pairs| && NameValue(pairs[k]).0 == key
    requires forall j :: 0 <= j < k ==> NameValue(pairs[j]).0 != key
    ensures Lookup(pairs, key) == UriComponent.Decode(NameValue(pairs[k]).1)
  {
    if k > 0 {
      LookupFirst(pairs[1..], k - 1, key);
    }
  }

  /** The pairs `names[j]=values[j]`, in order. */
  function PairsOf(names: seq<string>, values: seq<string>): (pairs: seq<string>)
    requires |names| == |values|
    ensures |pairs| == |names|
    ensures forall j :: 0 <= j < |names| ==> pairs[j] == Pair(names[j], values[j])
  {
    seq(|names|, j requires 0 <= j < |names| => Pair(names[j], values[j]))
  }

  /** Reading a URL made of an address without '?', then '?', then pairs
      joined by '&' whose names and values hold no '&' or '#' and whose
      names hold no '=': the value of a name is the decoded value of its
      first pair. */
  lemma ReadQuery(address: string, names: seq<string>, values: seq<string>, k: nat)
    requires Avoids(address, "?") && |names| == |values| && k < |names|
    requires forall j :: 0 <= j < |names| ==> Avoids(names[j], "=&#") && Avoids(values[j], "&#")
    requires forall j :: 0 <= j < k ==> names[j] != names[k]
    ensures QueryParam(address + "?" + Join(PairsOf(names, values), "&"), names[k]) == UriComponent.Decode(values[k])
  {
    var pairs := PairsOf(names, values);
    var q := Join(pairs, "&");
    forall j | 0 <= j < |names|
      ensures Avoids(pairs[j], "&") && Avoids(pairs[j], "#") && NameValue(pairs[j]) == (names[j], values[j])
    {
      assert Avoids(names[j], "&") && Avoids(names[j], "#") && Avoids(names[j], "=");
      assert Avoids(values[j], "&") && Avoids(values[j], "#");
      PairAvoids(names[j], values[j], "&");
      PairAvoids(names[j], values[j], "#");
      PairOf(names[j], values[j]);
    }
    IndexOfAfter(address, "?", q);
    assert (address + "?" + q)[|address| + 1..] == q;
    assert Avoids("&", "#");
    JoinAvoids(pairs, "&", "#");
    IndexOfAvoiding(q, "#");
    SplitJoin(pairs, "&");
    LookupFirst(pairs, k, names[k]);
  }

  // ---------------------------------------------------------------------
  // The link carries both URLs

  /** The names of the link's query parameters, in order. */
  const LinkNames: seq<string> := ["format", "manifest", "drm", "license"]

  /** The values of the link's query parameters, in order. */
  function LinkValues(em: string, el: string): seq<string> {
    ["dash", em, "widevine", el]
  }

  lemma Join4(a: string, b: string, c: string, d: string)
    ensures Join([a, b, c, d], "&") == a + "&" + b + "&" + c + "&" + d
  {
    var p := [a, b, c, d];
    assert p[1..] == [b, c, d] && p[1..][1..] == [c, d] && p[1..][1..][1..] == [d];
    assert Join([c, d], "&") == c + "&" + d;
    assert Join([b, c, d], "&") == b + "&" + (c + "&" + d);
  }

  /** The fixed text of the link's template, cut at the pairs. */
  lemma TemplatePieces()
    ensures "?format=dash&manifest=" == "?" + Pair("format", "dash") + "&" + "manifest" + "="
    ensures "&drm=widevine&license=" == "&" + Pair("drm", "widevine") + "&" + "license" + "="
  {
  }

  /** Regrouping the template around the two encoded values. */
  lemma Regroup(address: string, a: string, m: string, em: string, b: string, l: string, el: string)
    ensures address + ("?" + a + "&" + m + "=") + em + ("&" + b + "&" + l + "=") + el ==
            address + "?" + (a + "&" + Pair(m, em) + "&" + b + "&" + Pair(l, el))
  {
  }

  /** The link's pairs, spelled out. */
  lemma LinkPairs(em: string, el: string)
    ensures PairsOf(LinkNames, LinkValues(em, el)) ==
              [Pair("format", "dash"), Pair("manifest", em), Pair("drm", "widevine"), Pair("license", el)]
  {
  }

  /** The link is its address, '?', and its pairs joined by '&'. */
  lemma LinkAsQuery(em: string, el: string)
    ensures PreviewTool + "?format=dash&manifest=" + em + "&drm=widevine&license=" + el ==
              PreviewTool + "?" + Join(PairsOf(LinkNames, LinkValues(em, el)), "&")
  {
    TemplatePieces();
    Regroup(PreviewTool, Pair("format", "dash"), "manifest", em, Pair("drm", "widevine"), "license", el);
    Join4(Pair("format", "dash"), Pair("manifest", em), Pair("drm", "widevine"), Pair("license", el));
    LinkPairs(em, el);
  }

  /** Encoded text holds none of the query delimiters. */
  lemma EncodedAvoids(m: string)
    ensures Avoids(UriComponent.Encode(m), "&#")
  {
  }

  /** The parameter names are distinct and hold no delimiter; the fixed
      values hold no delimiter. */
  lemma LinkNamesPlain()
    ensures forall j :: 0 <= j < |LinkNames| ==> Avoids(LinkNames[j], "=&#")
    ensures forall i, j :: 0 <= i < j < |LinkNames| ==> LinkNames[i] != LinkNames[j]
    ensures Avoids("dash", "&#") && Avoids("widevine", "&#")
  {
  }

  /** Text made only of unescaped characters decodes to itself. */
  lemma DecodePlain(s: string)
    requires forall i :: 0 <= i < |s| ==> UriComponent.Unescaped(s[i])
    ensures UriComponent.Decode(s) == Some(s)
  {
    UriComponent.DecodeEncode(s);
  }

  lemma DecodeFixedValues()
    ensures UriComponent.Decode("dash") == Some("dash")
    ensures UriComponent.Decode("widevine") == Some("widevine")
  {
    DecodePlain("dash");
    DecodePlain("widevine");
  }

  /** The values of the link hold no '&' or '#' once the URLs are encoded. */
  lemma LinkValuesPlain(em: string, el: string)
    requires Avoids(em, "&#") && Avoids(el, "&#")
    ensures forall j :: 0 <= j < |LinkValues(em, el)| ==> Avoids(LinkValues(em, el)[j], "&#")
  {
    LinkNamesPlain();
  }

  /** Each parameter of the link reads back as the decoding of its value. */
  lemma ReadLink(em: string, el: string, k: nat)
    requires Avoids(em, "&#") && Avoids(el, "&#") && k < 4
    ensures QueryParam(PreviewTool + "?" + Join(PairsOf(LinkNames, LinkValues(em, el)), "&"), LinkNames[k]) ==
              UriComponent.Decode(LinkValues(em, el)[k])
  {
    LinkNamesPlain();
    LinkValuesPlain(em, el);
    assert Avoids(PreviewTool, "?");
    ReadQuery(PreviewTool, LinkNames, LinkValues(em, el), k);
  }

  /** Reading the link back: `manifest` and `license` decode to the URLs
      that went in, `drm` is `widevine` and `format` is `dash`. */
  lemma LinkRoundTrip(manifest: string, license: string)
    ensures QueryParam(PreviewLink(manifest, license), "manifest") == Some(manifest)
    ensures QueryParam(PreviewLink(manifest, license), "license") == Some(license)
    ensures QueryParam(PreviewLink(manifest, license), "drm") == Some("widevine")
    ensures QueryParam(PreviewLink(manifest, license), "format") == Some("dash")
  {
    var em, el := UriComponent.Encode(manifest), UriComponent.Encode(license);
    LinkAsQuery(em, el);
    EncodedAvoids(manifest);
    EncodedAvoids(license);
    ReadLink(em, el, 0);
    ReadLink(em, el, 1);
    ReadLink(em, el, 2);
    ReadLink(em, el, 3);
    DecodeFixedValues();
    UriComponent.DecodeEncode(manifest);
    UriComponent.DecodeEncode(license);
  }
}
