/** The body of the `produce` command: pick the delimiter, compile it, split standard
    input into tokens and pair the tokens into records for one topic (produce.go, the
    `Run` closure). Handing records to the Kafka client, waiting for their acknowledgement
    and printing are not modelled. The result is the list of records the loop submits,
    or the error that ends the run: `ProduceRecords` with the key and value copies
    corrected, `ProduceRecordsAsWritten` with the copies as written. */
module Produce {
  import opened Wrappers
  import opened Seqs
  import Delim
  import Scan

  /** The fields of a `kgo.Record` that the loop fills in. `key` is `None` for Go's nil. */
  datatype Record = Record(topic: string, key: Option<seq<byte>>, value: seq<byte>)

  datatype ProduceError =
    | BadDelim(cause: Delim.DelimError)   // `parseDelim` dies
    | MissingFinalValue                   // "missing final value delim"

  /** The token loop: in keyed mode each record takes a key token and the value token
      after it, and a key with no value after it ends the run; otherwise each token is
      the value of one record with no key. Every record goes to `topic`. */
  function PairRecords(topic: string, ts: seq<seq<byte>>, keyed: bool): (r: Result<seq<Record>, ProduceError>)
    ensures r.Failure? <==> keyed && |ts| % 2 == 1
    ensures r.Failure? ==> r.error == MissingFinalValue
    ensures r.Success? && keyed ==>
              |r.value| == |ts| / 2
              && forall j :: 0 <= j < |r.value| ==> r.value[j] == Record(topic, Some(ts[2 * j]), ts[2 * j + 1])
    ensures r.Success? && !keyed ==>
              |r.value| == |ts|
              && forall j :: 0 <= j < |r.value| ==> r.value[j] == Record(topic, None, ts[j])
    decreases |ts|
  {
    if |ts| == 0 then Success([])
    else if !keyed then
      match PairRecords(topic, ts[1..], keyed)
      case Failure(e) => Failure(e)
      case Success(rest) => Success([Record(topic, None, ts[0])] + rest)
    else if |ts| == 1 then Failure(MissingFinalValue)
    else
      match PairRecords(topic, ts[2..], keyed)
      case Failure(e) => Failure(e)
      case Success(rest) => Success([Record(topic, Some(ts[0]), ts[1])] + rest)
  }

  /** The tokens a list of records was made from: a keyed record gives its key and its
      value, a value-only record its value. */
  function RecordTokens(rs: seq<Record>): seq<seq<byte>>
  {
    if |rs| == 0 then []
    else
      (if rs[0].key.Some? then [rs[0].key.value, rs[0].value] else [rs[0].value])
      + RecordTokens(rs[1..])
  }

  /** Pairing loses no token and invents none: reading the records back gives the tokens
      they were made from, in order. */
  lemma {:induction false} PairRecordsRoundTrip(topic: string, ts: seq<seq<byte>>, keyed: bool)
    requires PairRecords(topic, ts, keyed).Success?
    ensures RecordTokens(PairRecords(topic, ts, keyed).value) == ts
    decreases |ts|
  {
    if |ts| > 0 {
      var n := if keyed then 2 else 1;
      var rest := PairRecords(topic, ts[n..], keyed).value;
      var r := Record(topic, if keyed then Some(ts[0]) else None, ts[n - 1]);
      assert PairRecords(topic, ts, keyed).value == [r] + rest;
      PairRecordsRoundTrip(topic, ts[n..], keyed);
      RecordTokensCons(r, rest);
      assert ts == ts[..n] + ts[n..];
    }
  }

  /** Reading back a record in front of others. */
  lemma RecordTokensCons(r: Record, rest: seq<Record>)
    ensures RecordTokens([r] + rest)
            == (if r.key.Some? then [r.key.value, r.value] else [r.value]) + RecordTokens(rest)
  {
    assert ([r] + rest)[1..] == rest;
  }

  /** `append(make([]byte, len(b)), b...)` as the loop writes it: `make` creates `len(b)`
      zero bytes and `append` adds `b` after them. */
  function CopyAsWritten(b: seq<byte>): (c: seq<byte>)
    ensures |c| == 2 * |b|
    ensures c[|b|..] == b
    ensures forall k :: 0 <= k < |b| ==> c[k] == 0
  {
    seq(|b|, _ => 0 as byte) + b
  }

  /** The token loop exactly as written, with each key and value copied by
      `CopyAsWritten`. */
  function PairRecordsAsWritten(topic: string, ts: seq<seq<byte>>, keyed: bool): (r: Result<seq<Record>, ProduceError>)
    ensures r.Failure? <==> keyed && |ts| % 2 == 1
    ensures r.Success? && keyed ==>
              |r.value| == |ts| / 2
              && forall j :: 0 <= j < |r.value| ==>
                   r.value[j] == Record(topic, Some(CopyAsWritten(ts[2 * j])), CopyAsWritten(ts[2 * j + 1]))
    ensures r.Success? && !keyed ==>
              |r.value| == |ts|
              && forall j :: 0 <= j < |r.value| ==> r.value[j] == Record(topic, None, CopyAsWritten(ts[j]))
    decreases |ts|
  {
    if |ts| == 0 then Success([])
    else if !keyed then
      match PairRecordsAsWritten(topic, ts[1..], keyed)
      case Failure(e) => Failure(e)
      case Success(rest) => Success([Record(topic, None, CopyAsWritten(ts[0]))] + rest)
    else if |ts| == 1 then Failure(MissingFinalValue)
    else
      match PairRecordsAsWritten(topic, ts[2..], keyed)
      case Failure(e) => Failure(e)
      case Success(rest) => Success([Record(topic, Some(CopyAsWritten(ts[0])), CopyAsWritten(ts[1]))] + rest)
  }

  /** With only empty tokens the loop as written sends what the tokens hold. */
  lemma AsWrittenEmptyTokens(topic: string, ts: seq<seq<byte>>, keyed: bool)
    requires !(keyed && |ts| % 2 == 1)
    requires forall k :: 0 <= k < |ts| ==> ts[k] == []
    ensures PairRecordsAsWritten(topic, ts, keyed) == PairRecords(topic, ts, keyed)
  {
    var w := PairRecordsAsWritten(topic, ts, keyed).value;
    var r := PairRecords(topic, ts, keyed).value;
    forall j | 0 <= j < |r| ensures w[j] == r[j] {
      if keyed {
        assert CopyAsWritten(ts[2 * j]) == ts[2 * j];
        assert CopyAsWritten(ts[2 * j + 1]) == ts[2 * j + 1];
      } else {
        assert CopyAsWritten(ts[j]) == ts[j];
      }
    }
    assert w == r;
  }

  /** A non-empty token reaches Kafka, as written, with as many zero bytes in front. */
  lemma AsWrittenNonEmptyToken(topic: string, ts: seq<seq<byte>>, keyed: bool, k: int)
    requires !(keyed && |ts| % 2 == 1)
    requires 0 <= k < |ts| && ts[k] != []
    ensures PairRecordsAsWritten(topic, ts, keyed) != PairRecords(topic, ts, keyed)
  {
    var w := PairRecordsAsWritten(topic, ts, keyed);
    var r := PairRecords(topic, ts, keyed);
    assert w.Success? && r.Success?;
    assert |CopyAsWritten(ts[k])| != |ts[k]|;
    if keyed {
      var j := k / 2;
      assert 0 <= j < |r.value| && (k == 2 * j || k == 2 * j + 1);
      assert w.value[j] != r.value[j];
    } else {
      assert w.value[k] != r.value[k];
    }
  }

  /** The loop as written sends what the tokens hold only when every token is empty:
      any non-empty token reaches Kafka with as many zero bytes in front of it. */
  lemma AsWrittenDiffers(topic: string, ts: seq<seq<byte>>, keyed: bool)
    requires !(keyed && |ts| % 2 == 1)
    ensures PairRecordsAsWritten(topic, ts, keyed) == PairRecords(topic, ts, keyed)
            <==> forall k :: 0 <= k < |ts| ==> ts[k] == []
  {
    if forall k :: 0 <= k < |ts| ==> ts[k] == [] {
      AsWrittenEmptyTokens(topic, ts, keyed);
    } else {
      var k :| 0 <= k < |ts| && ts[k] != [];
      AsWrittenNonEmptyToken(topic, ts, keyed, k);
    }
  }

  /** One unkeyed record for the token `A` carries the value 0x00 0x41 as written. */
  lemma AsWrittenExample(topic: string)
    ensures PairRecordsAsWritten(topic, [[0x41]], false) == Success([Record(topic, None, [0x00, 0x41])])
    ensures PairRecords(topic, [[0x41]], false) == Success([Record(topic, None, [0x41])])
  {
    var ts: seq<seq<byte>> := [[0x41]];
    assert CopyAsWritten([0x41]) == [0x00, 0x41];
    var w := PairRecordsAsWritten(topic, ts, false).value;
    assert |w| == 1 && w[0] == Record(topic, None, [0x00, 0x41]);
    assert w == [Record(topic, None, [0x00, 0x41])];
    var r := PairRecords(topic, ts, false).value;
    assert |r| == 1 && r[0] == Record(topic, None, [0x41]);
    assert r == [Record(topic, None, [0x41])];
  }

  /** The records one run of `produce TOPIC` submits for the whole of standard input
      `input` once the key and value copies at produce.go:85 and :90 are corrected, or the
      error that ends it. `recDelim` and `keyDelim` are the raw `--delim` and
      `--keyed-record-delim` flag values. `ProduceRecordsAsWritten` is the run with the
      copies as written. */
  function ProduceRecords(topic: string, recDelim: seq<byte>, keyDelim: seq<byte>, input: seq<byte>)
    : (r: Result<seq<Record>, ProduceError>)
    ensures var spec := if |keyDelim| > 0 then keyDelim else recDelim;
            Delim.ParseDelim(spec).Failure? ==> r == Failure(BadDelim(Delim.ParseDelim(spec).error))
    ensures r.Success? ==> forall j :: 0 <= j < |r.value| ==> r.value[j].topic == topic
    ensures r.Success? ==> forall j :: 0 <= j < |r.value| ==> (r.value[j].key.Some? <==> |keyDelim| > 0)
    ensures r.Failure? && r.error == MissingFinalValue ==>
              |keyDelim| > 0 && |Scan.Tokenize(Delim.ParseDelim(keyDelim).value, input)| % 2 == 1
    ensures |keyDelim| > 0 && Delim.ParseDelim(keyDelim).Success?
            && |Scan.Tokenize(Delim.ParseDelim(keyDelim).value, input)| % 2 == 1 ==>
              r == Failure(MissingFinalValue)
  {
    // A non-empty keyed-record delimiter replaces the record delimiter (produce.go:53-55).
    var spec := if |keyDelim| > 0 then keyDelim else recDelim;
    match Delim.ParseDelim(spec)
    case Failure(e) => Failure(BadDelim(e))
    case Success(delim) => PairRecords(topic, Scan.Tokenize(delim, input), |keyDelim| > 0)
  }

  /** What the copy as written makes of a record: key and value each behind as many zero
      bytes as they hold. */
  function CopyRecord(rec: Record): Record
  {
    Record(rec.topic,
           if rec.key.Some? then Some(CopyAsWritten(rec.key.value)) else None,
           CopyAsWritten(rec.value))
  }

  /** The run exactly as written: the same delimiter, tokens and errors as
      `ProduceRecords`, but every record submitted is the corrected one with its key and
      value copied by `CopyAsWritten`. */
  function ProduceRecordsAsWritten(topic: string, recDelim: seq<byte>, keyDelim: seq<byte>, input: seq<byte>)
    : (r: Result<seq<Record>, ProduceError>)
    ensures var c := ProduceRecords(topic, recDelim, keyDelim, input);
            (r.Failure? <==> c.Failure?) && (r.Failure? ==> r.error == c.error)
    ensures var c := ProduceRecords(topic, recDelim, keyDelim, input);
            r.Success? ==> |r.value| == |c.value|
                           && forall j :: 0 <= j < |r.value| ==> r.value[j] == CopyRecord(c.value[j])
  {
    // A non-empty keyed-record delimiter replaces the record delimiter (produce.go:53-55).
    var spec := if |keyDelim| > 0 then keyDelim else recDelim;
    match Delim.ParseDelim(spec)
    case Failure(e) => Failure(BadDelim(e))
    case Success(delim) =>
      var ts := Scan.Tokenize(delim, input);
      PairRecordsCopy(topic, ts, |keyDelim| > 0);
      PairRecordsAsWritten(topic, ts, |keyDelim| > 0)
  }

  /** The loop as written submits, record for record, the copies of what the corrected
      loop submits, and fails exactly when it does. */
  lemma PairRecordsCopy(topic: string, ts: seq<seq<byte>>, keyed: bool)
    ensures var w := PairRecordsAsWritten(topic, ts, keyed);
            var c := PairRecords(topic, ts, keyed);
            (w.Failure? <==> c.Failure?) && (w.Failure? ==> w.error == c.error)
            && (w.Success? ==> |w.value| == |c.value|
                               && forall j :: 0 <= j < |w.value| ==> w.value[j] == CopyRecord(c.value[j]))
  {
  }

  /** With a keyed-record delimiter set, the record delimiter plays no part. */
  lemma KeyDelimOverrides(topic: string, rd1: seq<byte>, rd2: seq<byte>, keyDelim: seq<byte>, input: seq<byte>)
    requires |keyDelim| > 0
    ensures ProduceRecords(topic, rd1, keyDelim, input) == ProduceRecords(topic, rd2, keyDelim, input)
  {
  }

  /** Unkeyed, the run submits one value-only record per token, in input order. */
  lemma UnkeyedOnePerToken(topic: string, recDelim: seq<byte>, input: seq<byte>)
    requires Delim.ParseDelim(recDelim).Success?
    ensures var ts := Scan.Tokenize(Delim.ParseDelim(recDelim).value, input);
            var r := ProduceRecords(topic, recDelim, [], input);
            r.Success? && |r.value| == |ts|
            && forall j :: 0 <= j < |ts| ==> r.value[j] == Record(topic, None, ts[j])
  {
  }

  /** Keyed, the run submits one record per pair of tokens, the first of the pair as key
      and the second as value, in input order; an odd token count ends it for want of a
      final value. */
  lemma KeyedTwoPerRecord(topic: string, recDelim: seq<byte>, keyDelim: seq<byte>, input: seq<byte>)
    requires |keyDelim| > 0 && Delim.ParseDelim(keyDelim).Success?
    ensures var ts := Scan.Tokenize(Delim.ParseDelim(keyDelim).value, input);
            var r := ProduceRecords(topic, recDelim, keyDelim, input);
            (|ts| % 2 == 1 ==> r == Failure(MissingFinalValue))
            && (|ts| % 2 == 0 ==>
                  r.Success? && |r.value| == |ts| / 2
                  && forall j :: 0 <= j < |r.value| ==> r.value[j] == Record(topic, Some(ts[2 * j]), ts[2 * j + 1]))
  {
  }

  /** With the default delimiter, a newline, `x\ny\n` gives the records `x` and `y`. */
  lemma ExampleLines(topic: string, x: byte, y: byte)
    requires x != Delim.NEWLINE && y != Delim.NEWLINE
    ensures ProduceRecords(topic, [Delim.NEWLINE], [], [x, Delim.NEWLINE, y, Delim.NEWLINE])
            == Success([Record(topic, None, [x]), Record(topic, None, [y])])
  {
    var nl: seq<byte> := [Delim.NEWLINE];
    var input: seq<byte> := [x, Delim.NEWLINE, y, Delim.NEWLINE];
    Delim.LiteralSpec(nl);
    Scan.ExampleTrailingDelimiter(Delim.NEWLINE, x, y);
    var ts := Scan.Tokenize(nl, input);
    assert ts == [[x], [y]];
    assert ProduceRecords(topic, nl, [], input) == PairRecords(topic, ts, false);
    var r := PairRecords(topic, ts, false).value;
    assert |r| == 2 && r[0] == Record(topic, None, [x]) && r[1] == Record(topic, None, [y]);
    assert r == [Record(topic, None, [x]), Record(topic, None, [y])];
  }

  /** With the keyed delimiter `,`, `x,y,z` fails for want of a value after the key `z`. */
  lemma ExampleDanglingKey(topic: string, x: byte, y: byte, z: byte)
    requires x != 44 && y != 44 && z != 44
    ensures ProduceRecords(topic, [Delim.NEWLINE], [44], [x, 44, y, 44, z]) == Failure(MissingFinalValue)
  {
    var k: seq<byte> := [44];
    var input: seq<byte> := [x, 44, y, 44, z];
    Delim.LiteralSpec(k);
    Scan.ExampleThreeFields(44, x, y, z);
    var ts := Scan.Tokenize(k, input);
    assert |ts| == 3;
    assert ProduceRecords(topic, [Delim.NEWLINE], k, input) == PairRecords(topic, ts, true);
  }
}
