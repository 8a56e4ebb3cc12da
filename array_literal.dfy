/**
  The text-array literal the like toggle writes back to the `likes` column:
  `{` + each id wrapped in double quotes + joined by `,` + `}`. Format is the
  application's serialiser; Parse is the database side that reads such a literal
  (array value input, section 8.15.2 of the PostgreSQL documentation),
  restricted to the one shape Format produces: quoted elements, in which a
  backslash takes the next character literally.
*/
module ArrayLiteral {
  import opened Wrappers

  const Quote: char := '"'
  const Backslash: char := '\\'

  /** An id that can sit between quotes unchanged: no quote and no backslash. */
  predicate PlainElement(x: string) {
    Quote !in x && Backslash !in x
  }

  predicate AllPlain(xs: seq<string>) {
    forall i :: 0 <= i < |xs| ==> PlainElement(xs[i])
  }

  function Quoted(x: string): string {
    [Quote] + x + [Quote]
  }

  /** `xs.map(id => `"${id}"`).join(",")` */
  function JoinQuoted(xs: seq<string>): (r: string)
    ensures xs != [] ==> |r| >= 2 && r[0] == Quote
  {
    if xs == [] then ""
    else if |xs| == 1 then Quoted(xs[0])
    else Quoted(xs[0]) + "," + JoinQuoted(xs[1..])
  }

  /** The literal the toggle sends; the empty list gives `{}`. */
  function Format(xs: seq<string>): (r: string)
    ensures |r| >= 2 && r[0] == '{' && r[|r| - 1] == '}'
    ensures r == "{}" <==> xs == []
  {
    "{" + JoinQuoted(xs) + "}"
  }

  /**
    Reads a quoted element after its opening quote, up to the closing quote.
    Gives the element's text and what follows the closing quote.
  */
  function ScanQuoted(t: string): (r: Option<(string, string)>)
    ensures r.Some? ==> |r.value.1| < |t|
    decreases |t|
  {
    if t == [] then None
    else if t[0] == Quote then Some(([], t[1..]))
    else if t[0] == Backslash then
      if |t| < 2 then None
      else match ScanQuoted(t[2..])
        case None => None
        case Some((e, rest)) => Some(([t[1]] + e, rest))
    else match ScanQuoted(t[1..])
      case None => None
      case Some((e, rest)) => Some(([t[0]] + e, rest))
  }

  /** A non-empty, comma-separated list of quoted elements, nothing else. */
  function ParseElements(s: string): (r: Option<seq<string>>)
    ensures r.Some? ==> r.value != []
    decreases |s|
  {
    if s == [] || s[0] != Quote then None
    else match ScanQuoted(s[1..])
      case None => None
      case Some((e, rest)) =>
        if rest == [] then Some([e])
        else if rest[0] != ',' then None
        else match ParseElements(rest[1..])
          case None => None
          case Some(es) => Some([e] + es)
  }

  /** The `::text[]` cast: None is the "malformed array literal" error. */
  function Parse(s: string): (r: Option<seq<string>>)
    ensures r.Some? ==> |s| >= 2 && s[0] == '{' && s[|s| - 1] == '}'
    ensures r == Some([]) <==> s == "{}"
  {
    if |s| < 2 || s[0] != '{' || s[|s| - 1] != '}' then None
    else if |s| == 2 then Some([])
    else ParseElements(s[1..|s| - 1])
  }

  lemma {:induction false} ScanPlain(x: string, rest: string)
    requires PlainElement(x)
    ensures ScanQuoted(x + [Quote] + rest) == Some((x, rest))
    decreases |x|
  {
    var t := x + [Quote] + rest;
    if x == [] {
      assert t == [Quote] + rest;
    } else {
      assert t[0] == x[0] && t[1..] == x[1..] + [Quote] + rest;
      ScanPlain(x[1..], rest);
      assert [x[0]] + x[1..] == x;
    }
  }

  lemma {:induction false} ParseJoined(xs: seq<string>)
    requires xs != [] && AllPlain(xs)
    ensures ParseElements(JoinQuoted(xs)) == Some(xs)
    decreases |xs|
  {
    var s := JoinQuoted(xs);
    if |xs| == 1 {
      assert s[1..] == xs[0] + [Quote] + [];
      ScanPlain(xs[0], []);
      assert [xs[0]] == xs;
    } else {
      var tail := JoinQuoted(xs[1..]);
      assert s[1..] == xs[0] + [Quote] + ([','] + tail);
      ScanPlain(xs[0], [','] + tail);
      assert ([','] + tail)[1..] == tail;
      ParseJoined(xs[1..]);
      assert [xs[0]] + xs[1..] == xs;
    }
  }

  /** For ids with no quote and no backslash the database reads back exactly the list sent. */
  lemma FormatRoundTrip(xs: seq<string>)
    requires AllPlain(xs)
    ensures Parse(Format(xs)) == Some(xs)
  {
    var s := Format(xs);
    if xs != [] {
      assert s[1..|s| - 1] == JoinQuoted(xs);
      ParseJoined(xs);
    }
  }

  /** How many quotes and backslashes `s` holds. */
  function Specials(s: string): nat {
    if s == [] then 0
    else (if s[0] == Quote || s[0] == Backslash then 1 else 0) + Specials(s[1..])
  }

  lemma {:induction false} SpecialsAppend(a: string, b: string)
    ensures Specials(a + b) == Specials(a) + Specials(b)
    decreases |a|
  {
    if a == [] {
      assert a + b == b;
    } else {
      assert (a + b)[0] == a[0] && (a + b)[1..] == a[1..] + b;
      SpecialsAppend(a[1..], b);
    }
  }

  lemma {:induction false} NoSpecialsIsPlain(x: string)
    requires Specials(x) == 0
    ensures PlainElement(x)
    decreases |x|
  {
    if x != [] {
      NoSpecialsIsPlain(x[1..]);
      assert x == [x[0]] + x[1..];
    }
  }

  /** The length of JoinQuoted(xs) when no element needs escaping. */
  function JoinedLength(xs: seq<string>): nat
    requires xs != []
  {
    if |xs| == 1 then |xs[0]| + 2 else |xs[0]| + 3 + JoinedLength(xs[1..])
  }

  function SpecialsOf(xs: seq<string>): nat {
    if xs == [] then 0 else Specials(xs[0]) + SpecialsOf(xs[1..])
  }

  lemma {:induction false} JoinQuotedCounts(xs: seq<string>)
    requires xs != []
    ensures |JoinQuoted(xs)| == JoinedLength(xs)
    ensures Specials(JoinQuoted(xs)) == 2 * |xs| + SpecialsOf(xs)
    decreases |xs|
  {
    SpecialsAppend([Quote] + xs[0], [Quote]);
    SpecialsAppend([Quote], xs[0]);
    assert Specials([Quote]) == 1;
    if |xs| > 1 {
      JoinQuotedCounts(xs[1..]);
      SpecialsAppend(Quoted(xs[0]) + ",", JoinQuoted(xs[1..]));
      SpecialsAppend(Quoted(xs[0]), ",");
      assert Specials(",") == 0;
    }
  }

  /**
    Reading one element consumes its text, one closing quote and one extra
    character per escape; with no escape it meets exactly one special character.
  */
  lemma {:induction false} ScanCounts(t: string)
    requires ScanQuoted(t).Some?
    ensures var (e, rest) := ScanQuoted(t).value;
      && |t| >= |e| + 1 + |rest|
      && (|t| == |e| + 1 + |rest| ==> Specials(t) == 1 + Specials(rest))
    decreases |t|
  {
    if t[0] == Backslash {
      ScanCounts(t[2..]);
    } else if t[0] != Quote {
      ScanCounts(t[1..]);
    }
  }

  lemma {:induction false} ParseCounts(s: string)
    requires ParseElements(s).Some?
    ensures var ys := ParseElements(s).value;
      && |s| >= JoinedLength(ys)
      && (|s| == JoinedLength(ys) ==> Specials(s) == 2 * |ys|)
    decreases |s|
  {
    ScanCounts(s[1..]);
    var (e, rest) := ScanQuoted(s[1..]).value;
    if rest != [] {
      ParseCounts(rest[1..]);
      var es := ParseElements(rest[1..]).value;
      assert ParseElements(s).value == [e] + es;
      assert ([e] + es)[1..] == es;
    }
  }

  /**
    The converse of FormatRoundTrip: if the database reads back exactly the
    list that was sent, no id held a quote or a backslash.
  */
  lemma RoundTripOnlyIfPlain(xs: seq<string>)
    requires Parse(Format(xs)) == Some(xs)
    ensures AllPlain(xs)
  {
    if xs != [] {
      var s := Format(xs);
      var body := s[1..|s| - 1];
      assert body == JoinQuoted(xs);
      JoinQuotedCounts(xs);
      ParseCounts(body);
      SpecialsOfZero(xs);
    }
  }

  lemma {:induction false} SpecialsOfZero(xs: seq<string>)
    requires SpecialsOf(xs) == 0
    ensures AllPlain(xs)
    decreases |xs|
  {
    if xs != [] {
      NoSpecialsIsPlain(xs[0]);
      SpecialsOfZero(xs[1..]);
    }
  }

  /** The literal carries the list unchanged exactly when no id holds a quote or a backslash. */
  lemma FormatRoundTripIff(xs: seq<string>)
    ensures Parse(Format(xs)) == Some(xs) <==> AllPlain(xs)
  {
    if AllPlain(xs) {
      FormatRoundTrip(xs);
    } else if Parse(Format(xs)) == Some(xs) {
      RoundTripOnlyIfPlain(xs);
    }
  }

  /** The id `a"b` ends its element early and leaves `b"` behind: the literal is rejected. */
  lemma QuoteBreaksLiteral()
    ensures Format(["a\"b"]) == "{\"a\"b\"}"
    ensures Parse(Format(["a\"b"])) == None
  {
    var s := Format(["a\"b"]);
    assert s[1..|s| - 1] == "\"a\"b\"";
    ScanPlain("a", "b\"");
    assert "a" + [Quote] + "b\"" == "a\"b\"";
  }

  /**
    The id `a","b` closes its own quotes: the literal is the one sent for the two
    ids `a` and `b`, and the database stores two likes.
  */
  lemma QuoteSplitsId()
    ensures Format(["a\",\"b"]) == Format(["a", "b"])
    ensures Parse(Format(["a\",\"b"])) == Some(["a", "b"])
  {
    assert JoinQuoted(["a", "b"]) == Quoted("a") + "," + JoinQuoted(["b"]);
    assert Quoted("a\",\"b") == Quoted("a") + "," + Quoted("b");
    FormatRoundTrip(["a", "b"]);
  }

  /** The id `a\b` is read back as `ab`: the backslash escapes the `b` and is lost. */
  lemma BackslashIsDropped()
    ensures Parse(Format(["a\\b"])) == Some(["ab"])
  {
    var s := Format(["a\\b"]);
    assert s[1..|s| - 1] == "\"a\\b\"";
    var t := "a\\b\"";
    assert t[1..][0] == Backslash && t[1..][1] == 'b' && t[1..][2..] == [Quote];
    assert ScanQuoted([Quote]) == Some(([], []));
    assert ['b'] + [] == "b";
    assert ScanQuoted(t[1..]) == Some(("b", ""));
    assert t[0] == 'a' && ['a'] + "b" == "ab";
    assert ScanQuoted(t) == Some(("ab", ""));
  }
}
