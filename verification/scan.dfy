/** The split function handed to the input scanner (`splitDelimFn`, produce.go) and the
    token stream it yields. `Tokenize` applies the split to fully available input;
    `Stream` models the scanner's read loop over input arriving in arbitrary chunks, and is
    proved to yield the same tokens, so the read size does not matter. */
module Scan {
  import opened Wrappers
  import opened Seqs

  /** The split function's answer: how many bytes the scanner should drop, and the token,
      if any (`None` is Go's nil token, which asks for more input or ends the scan). The
      error result of the Go function is always nil and is not modelled. */
  datatype Split = Split(advance: nat, token: Option<seq<byte>>)

  /** One call of the closure returned by `splitDelimFn(delim)`. The advance is the
      token's length plus ONE, whatever the delimiter's length. */
  function SplitDelim(delim: seq<byte>, data: seq<byte>, atEOF: bool): (r: Split)
    ensures atEOF && |data| == 0 ==> r == Split(0, None)
    ensures forall i :: (!atEOF || |data| > 0) && FirstOccurrence(data, delim, i) ==>
                          r == Split(i + 1, Some(data[..i]))
    ensures atEOF && |data| > 0 && !Contains(data, delim) ==> r == Split(|data|, Some(data))
    ensures !atEOF && !Contains(data, delim) ==> r == Split(0, None)
    ensures r.token.Some? && (|data| > 0 || |delim| > 0) ==> 0 < r.advance <= |data|
  {
    if atEOF && |data| == 0 then Split(0, None)
    else
      var i := Index(data, delim);
      if i >= 0 then
        assert forall j :: FirstOccurrence(data, delim, j) ==> j == i by {
          forall j | FirstOccurrence(data, delim, j) ensures j == i {
            FirstOccurrenceUnique(data, delim, i, j);
          }
        }
        Split(i + 1, Some(data[..i]))
      else if atEOF then Split(|data|, Some(data))
      else Split(0, None)
  }

  /** The leftmost occurrence in a prefix is the leftmost occurrence in any extension. */
  lemma FirstOccurrenceExtend(delim: seq<byte>, p: seq<byte>, q: seq<byte>, i: int)
    requires FirstOccurrence(p, delim, i)
    ensures FirstOccurrence(p + q, delim, i)
  {
    assert (p + q)[i..i + |delim|] == p[i..i + |delim|];
    forall j | 0 <= j < i ensures !OccursAt(p + q, delim, j) {
      assert !OccursAt(p, delim, j);
      assert (p + q)[j..j + |delim|] == p[j..j + |delim|];
    }
  }

  /** A token found before the end of input is the token found on any longer input:
      the scanner may call the split on any prefix it has read so far. */
  lemma SplitExtend(delim: seq<byte>, p: seq<byte>, q: seq<byte>, atEOF: bool)
    requires |p| > 0 && SplitDelim(delim, p, false).token.Some?
    ensures SplitDelim(delim, p + q, atEOF) == SplitDelim(delim, p, false)
  {
    var i := Index(p, delim);
    FirstOccurrenceExtend(delim, p, q, i);
    assert (p + q)[..i] == p[..i];
  }

  /** The tokens of a fully available input: apply the split at end of input to what is
      left until it returns no token. */
  function Tokenize(delim: seq<byte>, data: seq<byte>): (ts: seq<seq<byte>>)
    ensures |ts| == 0 <==> |data| == 0
    ensures |ts| <= |data|
    decreases |data|
  {
    var r := SplitDelim(delim, data, true);
    match r.token
    case None => []
    case Some(t) => [t] + Tokenize(delim, data[r.advance..])
  }

  /** Input without the delimiter is one token. */
  lemma NoDelimiterOneToken(delim: seq<byte>, data: seq<byte>)
    requires |data| > 0 && !Contains(data, delim)
    ensures Tokenize(delim, data) == [data]
  {
    assert data[|data|..] == [];
  }

  /** The bytes before the leftmost occurrence hold no occurrence. */
  lemma BeforeFirstAvoids(delim: seq<byte>, data: seq<byte>, i: int)
    requires |delim| > 0 && FirstOccurrence(data, delim, i)
    ensures !Contains(data[..i], delim)
  {
    forall j | 0 <= j <= i ensures !OccursAt(data[..i], delim, j) {
      if j + |delim| <= i {
        assert j < i && !OccursAt(data, delim, j);
        assert data[..i][j..j + |delim|] == data[j..j + |delim|];
      }
    }
  }

  /** No token holds a whole delimiter. */
  lemma {:induction false} TokensAvoidDelimiter(delim: seq<byte>, data: seq<byte>)
    requires |delim| > 0
    ensures forall k :: 0 <= k < |Tokenize(delim, data)| ==> !Contains(Tokenize(delim, data)[k], delim)
    decreases |data|
  {
    var r := SplitDelim(delim, data, true);
    if r.token.Some? {
      var ts := Tokenize(delim, data);
      var t := r.token.value;
      var tail := Tokenize(delim, data[r.advance..]);
      TokensAvoidDelimiter(delim, data[r.advance..]);
      assert ts == [t] + tail;
      assert !Contains(t, delim) by {
        if Contains(data, delim) {
          BeforeFirstAvoids(delim, data, Index(data, delim));
        }
      }
      forall k | 0 <= k < |ts| ensures !Contains(ts[k], delim) {
        if k > 0 { assert ts[k] == tail[k - 1]; }
      }
    }
  }

  /** At the leftmost delimiter the input splits into the bytes before it and the
      tokens of what follows its first byte. */
  lemma TokenizeAtDelimiter(delim: seq<byte>, data: seq<byte>, i: int)
    requires |data| > 0 && FirstOccurrence(data, delim, i)
    ensures i < |data| && Tokenize(delim, data) == [data[..i]] + Tokenize(delim, data[i + 1..])
  {
    if |delim| == 0 {
      assert OccursAt(data, delim, 0);
    }
  }

  /** What joining the tokens leaves out: a single-byte delimiter that ends the input. */
  function Trailer(delim: seq<byte>, data: seq<byte>): seq<byte>
  {
    if |delim| == 1 && |data| > 0 && data[|data| - 1] == delim[0] then delim else []
  }

  /** The delimiter's first byte sits at its leftmost occurrence. */
  lemma DelimiterByte(delim: seq<byte>, data: seq<byte>, i: int)
    requires |delim| > 0 && FirstOccurrence(data, delim, i)
    ensures i < |data| && data[i] == delim[0]
    ensures data == data[..i] + [delim[0]] + data[i + 1..]
  {
    assert data[i..i + |delim|][0] == delim[0];
  }

  /** A delimiter found as the very last bytes leaves one token and the trailer. */
  lemma RebuildAtEnd(delim: seq<byte>, data: seq<byte>, i: int)
    requires |delim| > 0 && FirstOccurrence(data, delim, i) && i + 1 == |data|
    ensures data == JoinWith(Tokenize(delim, data), [delim[0]]) + Trailer(delim, data)
  {
    DelimiterByte(delim, data, i);
    TokenizeAtDelimiter(delim, data, i);
    assert Tokenize(delim, data[i + 1..]) == [];
    assert |delim| == 1 && delim == [delim[0]];
  }

  /** Input without the delimiter rebuilds from its single token. */
  lemma RebuildNoDelimiter(delim: seq<byte>, data: seq<byte>)
    requires |delim| > 0 && |data| > 0 && !Contains(data, delim)
    ensures data == JoinWith(Tokenize(delim, data), [delim[0]]) + Trailer(delim, data)
  {
    NoDelimiterOneToken(delim, data);
    assert JoinWith([data], [delim[0]]) == data;
    if |delim| == 1 {
      assert data[|data| - 1..] == [data[|data| - 1]];
      assert !OccursAt(data, delim, |data| - 1);
      assert Trailer(delim, data) == [];
    }
  }

  /** Putting one more token and separator in front of a rebuilt input. */
  lemma RebuildCons(head: seq<byte>, sep: seq<byte>, rest: seq<byte>, ts: seq<seq<byte>>, trailer: seq<byte>)
    requires |ts| > 0 && rest == JoinWith(ts, sep) + trailer
    ensures head + sep + rest == JoinWith([head] + ts, sep) + trailer
  {
    JoinCons(head, ts, sep);
  }

  /** A delimiter inside the input: the first token, the separator byte, then the rest,
      which rebuilds by `TokenizeRebuild` on the shorter input. */
  lemma RebuildStep(delim: seq<byte>, data: seq<byte>, i: int)
    requires |delim| > 0 && FirstOccurrence(data, delim, i) && i + 1 < |data|
    ensures data == JoinWith(Tokenize(delim, data), [delim[0]]) + Trailer(delim, data)
    decreases |data|, 0
  {
    var rest := data[i + 1..];
    var tail := Tokenize(delim, rest);
    var sep := [delim[0]];
    var trailer := Trailer(delim, data);
    TokenizeRebuild(delim, rest);
    TrailerOfRest(delim, data, i + 1);
    DelimiterByte(delim, data, i);
    TokenizeAtDelimiter(delim, data, i);
    RebuildCons(data[..i], sep, rest, tail, trailer);
  }

  /** The trailer depends on the last byte only, so a non-empty suffix has the same one. */
  lemma TrailerOfRest(delim: seq<byte>, data: seq<byte>, k: int)
    requires 0 <= k < |data|
    ensures Trailer(delim, data[k..]) == Trailer(delim, data)
  {
    assert data[k..][|data| - k - 1] == data[|data| - 1];
  }

  /** Rebuilding the input from its tokens. Each split drops the token and ONE byte, the
      delimiter's first; so joining the tokens with that byte gives the input back, except
      that a single-byte delimiter ending the input leaves no trailing empty token and
      has to be put back. */
  lemma {:induction false} TokenizeRebuild(delim: seq<byte>, data: seq<byte>)
    requires |delim| > 0
    ensures data == JoinWith(Tokenize(delim, data), [delim[0]]) + Trailer(delim, data)
    decreases |data|, 1
  {
    if |data| > 0 {
      if !Contains(data, delim) {
        RebuildNoDelimiter(delim, data);
      } else {
        var i := Index(data, delim);
        if i + 1 == |data| {
          RebuildAtEnd(delim, data, i);
        } else {
          RebuildStep(delim, data, i);
        }
      }
    }
  }

  /** An empty delimiter (`--delim ""`) occurs at offset 0 of any input: every byte
      yields one empty token. */
  lemma {:induction false} EmptyDelimiter(data: seq<byte>)
    ensures |Tokenize([], data)| == |data|
    ensures forall k :: 0 <= k < |data| ==> Tokenize([], data)[k] == []
    decreases |data|
  {
    if |data| > 0 {
      assert OccursAt(data, [], 0);
      var ts := Tokenize([], data);
      EmptyDelimiter(data[1..]);
      assert ts == [[]] + Tokenize([], data[1..]);
    }
  }

  /** The scanner's read loop over input arriving as `chunks`, with `buf` read but not yet
      consumed. It calls the split when it holds data or has reached the end of input,
      and reads the next chunk when the split asks for more. Every token consumes at least
      one byte, so there are never more tokens than input bytes. */
  function Stream(delim: seq<byte>, buf: seq<byte>, chunks: seq<seq<byte>>): (ts: seq<seq<byte>>)
    ensures |ts| <= |buf| + |Flatten(chunks)|
    decreases |buf| + |Flatten(chunks)|, |chunks|
  {
    var atEOF := |chunks| == 0;
    if |buf| > 0 || atEOF then
      var r := SplitDelim(delim, buf, atEOF);
      match r.token
      case Some(t) => [t] + Stream(delim, buf[r.advance..], chunks)
      case None => if atEOF then [] else Stream(delim, buf + chunks[0], chunks[1..])
    else Stream(delim, buf + chunks[0], chunks[1..])
  }

  /** Once the input is exhausted the read loop is `Tokenize`. */
  lemma {:induction false} StreamAtEnd(delim: seq<byte>, buf: seq<byte>)
    ensures Stream(delim, buf, []) == Tokenize(delim, buf)
    decreases |buf|
  {
    var r := SplitDelim(delim, buf, true);
    if r.token.Some? {
      StreamAtEnd(delim, buf[r.advance..]);
    }
  }

  /** However the input is cut into reads, the scanner yields the tokens of the whole
      input. */
  lemma {:induction false} StreamMatchesTokenize(delim: seq<byte>, buf: seq<byte>, chunks: seq<seq<byte>>)
    ensures Stream(delim, buf, chunks) == Tokenize(delim, buf + Flatten(chunks))
    decreases |buf| + |Flatten(chunks)|, |chunks|
  {
    var rest := Flatten(chunks);
    if |chunks| == 0 {
      assert buf + rest == buf;
      StreamAtEnd(delim, buf);
    } else if |buf| > 0 && SplitDelim(delim, buf, false).token.Some? {
      var r := SplitDelim(delim, buf, false);
      TokenBeforeEnd(delim, buf, rest);
      StreamMatchesTokenize(delim, buf[r.advance..], chunks);
    } else {
      assert rest == chunks[0] + Flatten(chunks[1..]);
      assert (buf + chunks[0]) + Flatten(chunks[1..]) == buf + rest;
      StreamMatchesTokenize(delim, buf + chunks[0], chunks[1..]);
    }
  }

  /** A token the split finds before the end of input is the first token of the whole
      input, and the rest of the input follows it. */
  lemma TokenBeforeEnd(delim: seq<byte>, buf: seq<byte>, rest: seq<byte>)
    requires |buf| > 0 && SplitDelim(delim, buf, false).token.Some?
    ensures var r := SplitDelim(delim, buf, false);
            r.advance <= |buf|
            && Tokenize(delim, buf + rest) == [r.token.value] + Tokenize(delim, buf[r.advance..] + rest)
  {
    var r := SplitDelim(delim, buf, false);
    assert r.advance <= |buf|;
    var whole := buf + rest;
    SplitExtend(delim, buf, rest, true);
    TokenizeStep(delim, whole);
    DropFromAppend(buf, rest, r.advance);
  }


  /** One step of `Tokenize`: the split's token, then the tokens of what it leaves. */
  lemma TokenizeStep(delim: seq<byte>, data: seq<byte>)
    requires SplitDelim(delim, data, true).token.Some?
    ensures var r := SplitDelim(delim, data, true);
            r.advance <= |data|
            && Tokenize(delim, data) == [r.token.value] + Tokenize(delim, data[r.advance..])
  {
  }

  /** A non-delimiter byte followed by a single-byte delimiter is a token of its own. */
  lemma OneByteToken(c: byte, x: byte, rest: seq<byte>)
    requires x != c
    ensures Tokenize([c], [x, c] + rest) == [[x]] + Tokenize([c], rest)
  {
    var d: seq<byte> := [c];
    var data := [x, c] + rest;
    PairFront(x, c, rest);
    assert FirstOccurrence(data, d, 1);
    TokenizeAtDelimiter(d, data, 1);
  }

  /** The pieces of `[x, c] + rest` that `OneByteToken` looks at. */
  lemma PairFront(x: byte, c: byte, rest: seq<byte>)
    requires x != c
    ensures var data := [x, c] + rest;
            data[1..2] == [c] && data[0..1] != [c] && data[2..] == rest && data[..1] == [x]
  {
    var data := [x, c] + rest;
    assert data[0..1][0] == x;
  }

  /** A single-byte delimiter at the front gives an empty token. */
  lemma LeadingDelimiter(c: byte, rest: seq<byte>)
    ensures Tokenize([c], [c] + rest) == [[]] + Tokenize([c], rest)
  {
    var d: seq<byte> := [c];
    var data := [c] + rest;
    assert FirstOccurrence(data, d, 0) by { assert data[0..1] == d; }
    TokenizeAtDelimiter(d, data, 0);
    assert data[1..] == rest && data[..0] == [];
  }

  /** `x,y,,z` split on `,` gives `x`, `y`, an empty token and `z`. */
  lemma ExampleEmptyField(c: byte, x: byte, y: byte, z: byte)
    requires x != c && y != c && z != c
    ensures Tokenize([c], [x, c, y, c, c, z]) == [[x], [y], [], [z]]
  {
    EmptyFieldShapes(c, x, y, z);
    EmptyFieldTail(c, y, z);
    OneByteToken(c, x, [y, c, c, z]);
  }

  /** The concatenations `ExampleEmptyField` is made of. */
  lemma EmptyFieldShapes(c: byte, x: byte, y: byte, z: byte)
    ensures [x, c] + [y, c, c, z] == [x, c, y, c, c, z]
    ensures [[x]] + [[y], [], [z]] == [[x], [y], [], [z]]
  {
  }

  /** `y,,z` split on `,` gives `y`, an empty token and `z`. */
  lemma EmptyFieldTail(c: byte, y: byte, z: byte)
    requires y != c && z != c
    ensures Tokenize([c], [y, c, c, z]) == [[y], [], [z]]
  {
    EmptyFieldTailShapes(c, y, z);
    LastField(c, z);
    LeadingDelimiter(c, [z]);
    OneByteToken(c, y, [c, z]);
  }

  /** The concatenations `EmptyFieldTail` is made of. */
  lemma EmptyFieldTailShapes(c: byte, y: byte, z: byte)
    ensures [c] + [z] == [c, z] && [y, c] + [c, z] == [y, c, c, z]
    ensures [[]] + [[z]] == [[], [z]] && [[y]] + [[], [z]] == [[y], [], [z]]
  {
  }

  /** `x,y,z` split on `,` gives `x`, `y` and `z`. */
  lemma ExampleThreeFields(c: byte, x: byte, y: byte, z: byte)
    requires x != c && y != c && z != c
    ensures Tokenize([c], [x, c, y, c, z]) == [[x], [y], [z]]
  {
    ThreeFieldsShapes(c, x, y, z);
    LastField(c, z);
    OneByteToken(c, y, [z]);
    OneByteToken(c, x, [y, c, z]);
  }

  /** The concatenations `ExampleThreeFields` is made of. */
  lemma ThreeFieldsShapes(c: byte, x: byte, y: byte, z: byte)
    ensures [y, c] + [z] == [y, c, z] && [x, c] + [y, c, z] == [x, c, y, c, z]
    ensures [[y]] + [[z]] == [[y], [z]] && [[x]] + [[y], [z]] == [[x], [y], [z]]
  {
  }

  /** A final byte that is not the delimiter is the last token. */
  lemma LastField(c: byte, z: byte)
    requires z != c
    ensures Tokenize([c], [z]) == [[z]]
  {
    assert !Contains([z], [c]) by { assert [z][0..1] == [z]; }
    NoDelimiterOneToken([c], [z]);
  }

  /** `x,y,` split on `,` gives `x` and `y` and no trailing empty token. */
  lemma ExampleTrailingDelimiter(c: byte, x: byte, y: byte)
    requires x != c && y != c
    ensures Tokenize([c], [x, c, y, c]) == [[x], [y]]
  {
    FinalDelimitedToken(c, y);
    OneByteToken(c, x, [y, c]);
    assert [x, c] + [y, c] == [x, c, y, c] && [[x]] + [[y]] == [[x], [y]];
  }

  /** A non-delimiter byte and a single-byte delimiter that ends the input: one token. */
  lemma FinalDelimitedToken(c: byte, y: byte)
    requires y != c
    ensures Tokenize([c], [y, c]) == [[y]]
  {
    var d: seq<byte> := [c];
    var e: seq<byte> := [];
    PairFront(y, c, e);
    assert [y, c] + e == [y, c];
    assert FirstOccurrence([y, c], d, 1);
    TokenizeAtDelimiter(d, [y, c], 1);
    assert Tokenize(d, e) == [];
  }

  /** `xyz` split on `,` is one token. */
  lemma ExampleUnterminated(c: byte, x: byte, y: byte, z: byte)
    requires x != c && y != c && z != c
    ensures Tokenize([c], [x, y, z]) == [[x, y, z]]
  {
    var d: seq<byte> := [c];
    var g: seq<byte> := [x, y, z];
    assert !Contains(g, d) by {
      assert g[0..1] == [x] && g[1..2] == [y] && g[2..3] == [z];
    }
    NoDelimiterOneToken(d, g);
  }

  /** `xaby` split on the two-byte delimiter `ab` gives `x` and `by`: the delimiter's
      second byte starts the next token. */
  lemma ExampleMultiByteLeftover(a: byte, b: byte, x: byte, y: byte)
    requires a != b && x != a
    ensures Tokenize([a, b], [x, a, b, y]) == [[x], [b, y]]
  {
    var d: seq<byte> := [a, b];
    var h2: seq<byte> := [b, y];
    assert !Contains(h2, d) by { assert h2[0..2] == [b, y]; }
    NoDelimiterOneToken(d, h2);
    var h1: seq<byte> := [x, a, b, y];
    assert FirstOccurrence(h1, d, 1) by { assert h1[0..2] == [x, a]; assert h1[1..3] == d; }
    TokenizeAtDelimiter(d, h1, 1);
    assert h1[2..] == h2 && h1[..1] == [x];
  }
}
