/** `parseKVs` (main.go): read `k=v` strings, trimming white space around each pair and
    around each side of its single `=`. Strings are Dafny strings, that is sequences of
    Unicode scalar values; Go's strings are UTF-8 bytes, which agree with these for valid
    UTF-8. */
module KeyValues {
  import opened Wrappers
  import opened Seqs

  const EQUALS: char := '='

  datatype KV = KV(k: string, v: string)

  /** The three refusals; each carries the trimmed pair. */
  datatype KVError =
    | MissingEquals(pair: string)     // "pair %q missing '=' delim"
    | TooManyEquals(pair: string)     // "pair %q contains too many '='s"
    | EmptyKeyOrValue(pair: string)   // "pair %q contains an empty key or val"

  /** Go's `unicode.IsSpace`: in the Latin-1 range the eight spaces `unicode.IsSpace` lists
      itself, above it Unicode's White_Space property. */
  predicate IsSpace(c: char): (b: bool)
    ensures c < '\U{100}' ==> (b <==> c in {'\t', '\n', '\U{0B}', '\U{0C}', '\r', ' ', '\U{85}', '\U{A0}'})
    ensures '\U{100}' <= c < '\U{2000}' ==> (b <==> c == '\U{1680}')
  {
    || c == '\t' || c == '\n' || c == '\U{0B}' || c == '\U{0C}' || c == '\r' || c == ' '
    || c == '\U{85}' || c == '\U{A0}' || c == '\U{1680}'
    || ('\U{2000}' <= c <= '\U{200A}')
    || c == '\U{2028}' || c == '\U{2029}' || c == '\U{202F}' || c == '\U{205F}' || c == '\U{3000}'
  }

  predicate AllSpace(s: string) {
    forall k :: 0 <= k < |s| ==> IsSpace(s[k])
  }

  /** Drop leading white space. */
  function TrimLeft(s: string): (r: string)
    ensures |r| <= |s| && r == s[|s| - |r|..]
    ensures AllSpace(s[..|s| - |r|])
    ensures |r| > 0 ==> !IsSpace(r[0])
    decreases |s|
  {
    if |s| > 0 && IsSpace(s[0]) then TrimLeft(s[1..]) else s
  }

  /** Drop trailing white space. */
  function TrimRight(s: string): (r: string)
    ensures |r| <= |s| && r == s[..|r|]
    ensures AllSpace(s[|r|..])
    ensures |r| > 0 ==> !IsSpace(r[|r| - 1])
    decreases |s|
  {
    if |s| > 0 && IsSpace(s[|s| - 1]) then TrimRight(s[..|s| - 1]) else s
  }

  /** Go's `strings.TrimSpace`. */
  function TrimSpace(s: string): (r: string)
    ensures |r| <= |s|
    ensures |r| == 0 <==> AllSpace(s)
    ensures |r| > 0 ==> !IsSpace(r[0]) && !IsSpace(r[|r| - 1])
  {
    var l := TrimLeft(s);
    var r := TrimRight(l);
    assert |r| == 0 ==> AllSpace(s) by {
      if |r| == 0 {
        assert s == s[..|s| - |l|] + l;
        assert AllSpace(l[|r|..]) && l[|r|..] == l;
      }
    }
    assert |l| > 0 ==> !AllSpace(s) by {
      if |l| > 0 {
        assert l[0] == s[|s| - |l|];
      }
    }
    assert |r| > 0 ==> !IsSpace(r[0]) by {
      if |r| > 0 { assert r[0] == l[0]; }
    }
    r
  }

  /** Leading spaces are all that `TrimLeft` removes. */
  lemma {:induction false} TrimLeftExact(a: string, t: string)
    requires AllSpace(a) && (|t| == 0 || !IsSpace(t[0]))
    ensures TrimLeft(a + t) == t
    decreases |a|
  {
    if |a| > 0 {
      assert (a + t)[1..] == a[1..] + t;
      TrimLeftExact(a[1..], t);
    } else {
      assert a + t == t;
    }
  }

  /** Trailing spaces are all that `TrimRight` removes. */
  lemma {:induction false} TrimRightExact(t: string, b: string)
    requires AllSpace(b) && (|t| == 0 || !IsSpace(t[|t| - 1]))
    ensures TrimRight(t + b) == t
    decreases |b|
  {
    if |b| > 0 {
      assert (t + b)[..|t + b| - 1] == t + b[..|b| - 1];
      TrimRightExact(t, b[..|b| - 1]);
    } else {
      assert t + b == t;
    }
  }

  /** `TrimSpace` keeps exactly the text between the surrounding white space: whatever
      spaces surround a text that starts and ends with a non-space are removed, and
      nothing else. */
  lemma TrimSpaceExact(a: string, m: string, b: string)
    requires AllSpace(a) && AllSpace(b)
    requires |m| > 0 && !IsSpace(m[0]) && !IsSpace(m[|m| - 1])
    ensures TrimSpace(a + m + b) == m
  {
    assert a + m + b == a + (m + b);
    TrimLeftExact(a, m + b);
    TrimRightExact(m, b);
  }

  /** Trimming twice is trimming once. */
  lemma TrimSpaceIdempotent(s: string)
    ensures TrimSpace(TrimSpace(s)) == TrimSpace(s)
  {
    var t := TrimSpace(s);
    if |t| > 0 {
      var e: string := [];
      assert e + t + e == t;
      TrimSpaceExact(e, t, e);
    }
  }

  /** Go's `strings.Split(s, string(sep))`: the pieces between the separators. */
  function SplitOn(s: string, sep: char): (parts: seq<string>)
    ensures |parts| == Count(s, sep) + 1
    ensures forall k :: 0 <= k < |parts| ==> sep !in parts[k]
    ensures JoinWith(parts, [sep]) == s
    decreases |s|
  {
    if |s| == 0 then [[]]
    else
      var rest := SplitOn(s[1..], sep);
      assert s == [s[0]] + s[1..];
      if s[0] == sep then
        JoinCons([], rest, [sep]);
        [[]] + rest
      else
        JoinExtendFirst(s[0], rest, [sep]);
        [[s[0]] + rest[0]] + rest[1..]
  }

  /** A string without the separator is one piece. */
  lemma {:induction false} SplitOnNone(s: string, sep: char)
    requires sep !in s
    ensures SplitOn(s, sep) == [s]
    decreases |s|
  {
    if |s| > 0 {
      SplitOnNone(s[1..], sep);
      assert [s[0]] + s[1..] == s;
    }
  }

  /** The text before the first separator is the first piece. */
  lemma {:induction false} SplitOnFirst(a: string, sep: char, b: string)
    requires sep !in a
    ensures SplitOn(a + [sep] + b, sep) == [a] + SplitOn(b, sep)
    decreases |a|
  {
    if |a| == 0 {
      assert a + [sep] + b == [sep] + b;
      SplitOnStep(sep, b, sep);
    } else {
      var t := a[1..] + [sep] + b;
      assert a + [sep] + b == [a[0]] + t;
      SplitOnFirst(a[1..], sep, b);
      SplitOnStep(a[0], t, sep);
      assert [a[0]] + a[1..] == a;
    }
  }

  /** One step of the split: a separator starts a new piece, any other character
      joins the first piece. */
  lemma SplitOnStep(c: char, t: string, sep: char)
    ensures c == sep ==> SplitOn([c] + t, sep) == [[]] + SplitOn(t, sep)
    ensures c != sep ==> SplitOn([c] + t, sep) == [[c] + SplitOn(t, sep)[0]] + SplitOn(t, sep)[1..]
  {
    assert ([c] + t)[0] == c && ([c] + t)[1..] == t;
  }

  /** A string with a single separator splits into the text before it and after it. */
  lemma SplitOnOne(s: string, sep: char, i: int)
    requires 0 <= i < |s| && s[i] == sep && sep !in s[..i] && sep !in s[i + 1..]
    ensures SplitOn(s, sep) == [s[..i], s[i + 1..]]
  {
    assert s == s[..i] + [sep] + s[i + 1..];
    SplitOnFirst(s[..i], sep, s[i + 1..]);
    SplitOnNone(s[i + 1..], sep);
  }

  /** Two pieces around a separator are the text before and after it. */
  lemma SplitOnTwo(s: string, sep: char)
    requires |SplitOn(s, sep)| == 2
    ensures var parts := SplitOn(s, sep);
            var i := |parts[0]|;
            i < |s| && s[i] == sep && s[..i] == parts[0] && s[i + 1..] == parts[1]
  {
    var parts := SplitOn(s, sep);
    assert parts == [parts[0], parts[1]];
    JoinAroundSeparator(parts[0], parts[1], sep, s);
  }

  /** Two pieces joined around one separator sit on either side of it. */
  lemma JoinAroundSeparator(p: string, q: string, sep: char, s: string)
    requires JoinWith([p, q], [sep]) == s
    ensures |p| < |s| && s[|p|] == sep && s[..|p|] == p && s[|p| + 1..] == q
  {
    var parts := [p, q];
    JoinCons(p, [q], [sep]);
    assert [p] + [q] == parts;
    assert JoinWith([q], [sep]) == q;
    assert s == p + ([sep] + q);
  }

  /** What a well-formed pair stands for: after trimming, `p` has exactly one `=`, and
      `kv` holds the trimmed, non-empty text on each side of it. */
  ghost predicate Denotes(p: string, kv: KV) {
    var t := TrimSpace(p);
    exists i :: 0 <= i < |t| && t[i] == EQUALS && EQUALS !in t[..i] && EQUALS !in t[i + 1..]
                && kv.k == TrimSpace(t[..i]) && kv.v == TrimSpace(t[i + 1..])
                && |kv.k| > 0 && |kv.v| > 0
  }

  /** One iteration of the loop in `parseKVs`. */
  function ParsePair(p: string): (r: Result<KV, KVError>)
    ensures r.Failure? ==> r.error.pair == TrimSpace(p)
    ensures EQUALS !in TrimSpace(p) ==> r == Failure(MissingEquals(TrimSpace(p)))
    ensures Count(TrimSpace(p), EQUALS) >= 2 ==> r == Failure(TooManyEquals(TrimSpace(p)))
    ensures r.Failure? && r.error.MissingEquals? ==> EQUALS !in TrimSpace(p)
    ensures r.Failure? && r.error.TooManyEquals? ==> Count(TrimSpace(p), EQUALS) >= 2
    ensures r.Success? ==> |r.value.k| > 0 && |r.value.v| > 0
    ensures r.Success? ==> EQUALS !in r.value.k && EQUALS !in r.value.v
  {
    var t := TrimSpace(p);
    if EQUALS !in t then Failure(MissingEquals(t))
    else
      var parts := SplitOn(t, EQUALS);
      assert |parts| == Count(t, EQUALS) + 1 && Count(t, EQUALS) > 0;
      if |parts| != 2 then Failure(TooManyEquals(t))
      else
        assert Count(t, EQUALS) == 1;
        var k, v := TrimSpace(parts[0]), TrimSpace(parts[1]);
        TrimmedSubsequence(parts[0]);
        TrimmedSubsequence(parts[1]);
        if |k| == 0 || |v| == 0 then Failure(EmptyKeyOrValue(t))
        else Success(KV(k, v))
  }

  /** A pair with a single `=` but nothing except white space on one side of it is
      refused for an empty key or value. */
  lemma ParsePairEmptySide(p: string, i: int)
    requires var t := TrimSpace(p);
             0 <= i < |t| && t[i] == EQUALS && EQUALS !in t[..i] && EQUALS !in t[i + 1..]
             && (AllSpace(t[..i]) || AllSpace(t[i + 1..]))
    ensures ParsePair(p) == Failure(EmptyKeyOrValue(TrimSpace(p)))
  {
    var t := TrimSpace(p);
    SplitOnOne(t, EQUALS, i);
  }

  /** Trimming removes characters and adds none. */
  lemma TrimmedSubsequence(s: string)
    ensures forall c :: c in TrimSpace(s) ==> c in s
  {
    var l := TrimLeft(s);
    forall c | c in TrimSpace(s) ensures c in s {
      var k :| 0 <= k < |TrimSpace(s)| && TrimSpace(s)[k] == c;
      assert TrimSpace(s)[k] == l[k];
      assert l[k] == s[|s| - |l| + k];
    }
  }

  /** What `ParsePair` accepts is well formed and stands for the result. */
  lemma ParsedDenotes(p: string)
    ensures ParsePair(p).Success? ==> Denotes(p, ParsePair(p).value)
  {
    if ParsePair(p).Success? {
      var t := TrimSpace(p);
      var parts := SplitOn(t, EQUALS);
      SplitOnTwo(t, EQUALS);
      var i := |parts[0]|;
      assert t[i] == EQUALS && EQUALS !in t[..i] && EQUALS !in t[i + 1..];
    }
  }

  /** A well-formed pair is accepted with what it stands for. */
  lemma DenotesParsed(p: string, kv: KV)
    ensures Denotes(p, kv) ==> ParsePair(p) == Success(kv)
  {
    if Denotes(p, kv) {
      var t := TrimSpace(p);
      var i :| 0 <= i < |t| && t[i] == EQUALS && EQUALS !in t[..i] && EQUALS !in t[i + 1..]
               && kv.k == TrimSpace(t[..i]) && kv.v == TrimSpace(t[i + 1..])
               && |kv.k| > 0 && |kv.v| > 0;
      SplitOnOne(t, EQUALS, i);
    }
  }

  /** `ParsePair` accepts a pair exactly when it is well formed, and then returns what
      the pair stands for. */
  lemma ParsePairDenotes(p: string, kv: KV)
    ensures ParsePair(p) == Success(kv) <==> Denotes(p, kv)
  {
    ParsedDenotes(p);
    DenotesParsed(p, kv);
  }

  /** A first failure in the tail, behind a head that parses, is a first failure of
      the whole list one place further on. */
  lemma FirstFailureShift<X, Y, E>(parse: X -> Result<Y, E>, xs: seq<X>, j: int, e: E)
    requires 0 <= j < |xs| - 1 && parse(xs[0]).Success?
    requires parse(xs[1..][j]) == Failure(e) && forall i :: 0 <= i < j ==> parse(xs[1..][i]).Success?
    ensures exists k :: 0 <= k < |xs| && parse(xs[k]) == Failure(e)
                        && forall i :: 0 <= i < k ==> parse(xs[i]).Success?
  {
    assert parse(xs[j + 1]) == Failure(e);
    forall i | 0 <= i < j + 1 ensures parse(xs[i]).Success? {
      if i > 0 { assert xs[i] == xs[1..][i - 1]; }
    }
  }

  /** The loop of `parseKVs` for any per-item parser: every item parsed, in order, or
      the first error and no list at all. */
  function ParseEach<X, Y, E>(parse: X -> Result<Y, E>, xs: seq<X>): (r: Result<seq<Y>, E>)
    ensures r.Success? <==> forall j :: 0 <= j < |xs| ==> parse(xs[j]).Success?
    ensures r.Success? ==> |r.value| == |xs|
                           && forall j :: 0 <= j < |xs| ==> parse(xs[j]) == Success(r.value[j])
    ensures r.Failure? ==> exists j :: 0 <= j < |xs| && parse(xs[j]) == Failure(r.error)
                                       && forall i :: 0 <= i < j ==> parse(xs[i]).Success?
    decreases |xs|
  {
    if |xs| == 0 then Success([])
    else
      match parse(xs[0])
      case Failure(e) => Failure(e)
      case Success(y) =>
        var tail := xs[1..];
        assert forall j :: 1 <= j < |xs| ==> xs[j] == tail[j - 1];
        match ParseEach(parse, tail)
        case Failure(e) =>
          assert exists k :: 0 <= k < |xs| && parse(xs[k]) == Failure(e)
                             && forall i :: 0 <= i < k ==> parse(xs[i]).Success? by {
            var j :| 0 <= j < |tail| && parse(tail[j]) == Failure(e)
                     && forall i :: 0 <= i < j ==> parse(tail[i]).Success?;
            FirstFailureShift(parse, xs, j, e);
          }
          Failure(e)
        case Success(rest) =>
          Success([y] + rest)
  }

  /** `parseKVs`: every pair parsed, in order, or the error of the first pair that is not
      well formed and no list at all. */
  function ParseKVs(pairs: seq<string>): (r: Result<seq<KV>, KVError>)
    ensures r.Success? <==> forall j :: 0 <= j < |pairs| ==> ParsePair(pairs[j]).Success?
    ensures r.Success? ==> |r.value| == |pairs|
                           && forall j :: 0 <= j < |pairs| ==> ParsePair(pairs[j]) == Success(r.value[j])
    ensures r.Failure? ==> exists j :: 0 <= j < |pairs| && ParsePair(pairs[j]) == Failure(r.error)
                                       && forall i :: 0 <= i < j ==> ParsePair(pairs[i]).Success?
  {
    ParseEach(ParsePair, pairs)
  }

  /** On success each returned `kv` is what its input pair stands for. */
  lemma ParseKVsDenote(pairs: seq<string>)
    requires ParseKVs(pairs).Success?
    ensures forall j :: 0 <= j < |pairs| ==> Denotes(pairs[j], ParseKVs(pairs).value[j])
  {
    forall j | 0 <= j < |pairs| ensures Denotes(pairs[j], ParseKVs(pairs).value[j]) {
      ParsePairDenotes(pairs[j], ParseKVs(pairs).value[j]);
    }
  }
}
