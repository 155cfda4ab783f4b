/** The callback strings that the bot's buttons carry, `KIND::n`, built
    with a template literal and read back with `split("::")` and
    `parseInt`. */
module Callback {
  import opened Wrappers
  import opened JsText

  const Separator := "::"

  /** `${kind}::${n}` */
  function Token(kind: string, n: int): string {
    kind + Separator + IntToString(n)
  }

  /** `data.split("::")[0]`: the kind is the whole first segment. */
  function Kind(data: string): string {
    Split(data, Separator)[0]
  }

  /** `data.split("::")[1]`; None is `undefined`, when there is no
      separator at all. */
  function Suffix(data: string): Option<string> {
    var parts := Split(data, Separator);
    if |parts| > 1 then Some(parts[1]) else None
  }

  /** `parseInt(data.split("::")[1])`; None is NaN, which `parseInt` also
      returns for `undefined` (it reads the text "undefined"). */
  function SuffixValue(data: string): Option<int> {
    match Suffix(data)
    case None => None
    case Some(t) => ParseInt(t)
  }

  /** A token built from a kind without ':' and an integer is recognised as
      that kind, and its suffix parses back to the integer. */
  lemma TokenRoundTrip(kind: string, n: int)
    requires Avoids(kind, Separator)
    ensures Kind(Token(kind, n)) == kind
    ensures Suffix(Token(kind, n)) == Some(IntToString(n))
    ensures SuffixValue(Token(kind, n)) == Some(n)
  {
    var digits := IntToString(n);
    assert Avoids(digits, Separator);
    assert Join([kind, digits], Separator) == Token(kind, n);
    SplitJoin([kind, digits], Separator);
    ParseIntRoundTrip(n);
  }

  /** The kind is decided by an exact match on the first segment: data has
      kind `kind` exactly when it is `kind` itself or starts with
      `kind + "::"`. */
  lemma KindIs(data: string, kind: string)
    requires Avoids(kind, Separator)
    ensures Kind(data) == kind <==>
              data == kind || (|kind| + 2 <= |data| && data[..|kind| + 2] == kind + Separator)
  {
    if Kind(data) == kind {
      match IndexOf(data, Separator)
      case None =>
      case Some(i) =>
        assert data[..i] == kind;
        assert data[i..i + 2] == Separator;
        assert data[..|kind| + 2] == data[..i] + data[i..i + 2];
    }
    if |kind| + 2 <= |data| && data[..|kind| + 2] == kind + Separator {
      var rest := data[|kind| + 2..];
      assert data == kind + Separator + rest;
      IndexOfAfter(kind, Separator, rest);
      assert data[..|kind|] == kind;
    } else if data == kind {
      IndexOfAvoiding(kind, Separator);
    }
  }

  /** The two kinds the bot acts on. */
  const Page := "PAGE"
  const Play := "PLAY"

  lemma KindsAvoidSeparator()
    ensures Avoids(Page, Separator) && Avoids(Play, Separator)
  {
  }

  /** `"PAGEX::2"` is neither a PAGE nor a PLAY token, and no string is both. */
  lemma KindExamples(data: string)
    ensures Kind("PAGEX::2") != Page && Kind("PAGEX::2") != Play
    ensures !(Kind(data) == Page && Kind(data) == Play)
  {
    KindsAvoidSeparator();
    KindIs("PAGEX::2", Page);
    KindIs("PAGEX::2", Play);
    assert "PAGEX::2"[..6][4] != (Page + Separator)[4];
  }

  /** A PAGE token whose suffix contains no "::" and does not parse is
      still a PAGE token; its page is NaN. */
  lemma UnparsablePage(rest: string)
    requires IndexOf(rest, Separator).None? && ParseInt(rest) == None
    ensures Kind(Page + Separator + rest) == Page && SuffixValue(Page + Separator + rest) == None
  {
    KindsAvoidSeparator();
    SplitAfter(Page, Separator, rest);
    assert Split(rest, Separator) == [rest];
  }

  /** A bare "PAGE", with no separator at all, is a PAGE token whose page
      is NaN (the suffix is `undefined`). */
  lemma BarePage()
    ensures Kind(Page) == Page && Suffix(Page) == None && SuffixValue(Page) == None
  {
    KindsAvoidSeparator();
    IndexOfAvoiding(Page, Separator);
  }
}
