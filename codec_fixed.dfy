/** The persistence codec corrected to what its reader expects. The reader
    ends a chain at an empty line and reads a child chain, then a sibling
    chain, after each record; it inverts only a writer that ends every chain
    with an empty line. The writer puts a fifth field, `modifiedAt`, after a
    `|`, and the corrected reader skips that `|` before reading it. The
    reader's recursive descent is the source's, unchanged; only the writer
    and the last field extraction differ. */
module CodecFixed {
  import opened Nodes
  import opened Decimal
  import opened Codec

  /** `serializeNode` writing an empty line where it meets null. */
  function EncodeTerminated(t: Tree): (lines: seq<string>)
    ensures |lines| == 2 * Size(t) + 1
  {
    match t
    case Nil => [""]
    case N(e, c, s) => [Record(e)] + EncodeTerminated(c) + EncodeTerminated(s)
  }

  /** The record parser with the `|` before `modifiedAt` skipped. */
  function ParseRecordFixed(line: string): (e: Entry)
    ensures var h := ReadHead(line);
            e.name == h.name && e.content == h.content && e.created == h.created.value
    ensures e.isDir <==> ReadHead(line).flag == "1"
  {
    var h := ReadHead(line);
    var modified :=
      if h.created.good && h.created.rest[0] == '|' then ReadLong(h.created.rest[1..])
      else Extraction(false, 0, h.created.rest);
    Entry(h.name, h.flag == "1", h.content, h.created.value, modified.value)
  }

  function DecodeFixed(lines: seq<string>): (r: (Tree, seq<string>))
  {
    DecodeWith(ParseRecordFixed, lines)
  }

  /** Every field survives a write and a read. */
  lemma ParseRecordFixedOfRecord(e: Entry)
    requires Plain(e)
    ensures ParseRecordFixed(Record(e)) == e
  {
    ReadHeadOfRecord(e);
    ReadAfterBar(e.modified);
  }

  /** Past the `|`, the last field reads back whole and ends the input. */
  lemma ReadAfterBar(x: Time)
    ensures ("|" + Show(x))[0] == '|'
    ensures ReadLong(("|" + Show(x))[1..]) == Extraction(false, x, [])
  {
    assert ("|" + Show(x))[1..] == Show(x) + [];
    ReadShow(x, []);
  }

  /** Writing with terminators and reading back returns the tree and leaves
      whatever followed it unread. */
  lemma {:induction false} RoundTripTerminated(t: Tree, rest: seq<string>)
    requires PlainTree(t)
    ensures DecodeWith(ParseRecordFixed, EncodeTerminated(t) + rest) == (t, rest)
  {
    match t
    case Nil =>
      assert EncodeTerminated(t) + rest == [""] + rest;
    case N(e, c, s) =>
      var lines := EncodeTerminated(t) + rest;
      var afterChild := EncodeTerminated(s) + rest;
      Unfold(Record(e), EncodeTerminated(c), EncodeTerminated(s), rest);
      RoundTripTerminated(c, afterChild);
      RoundTripTerminated(s, rest);
      var r1 := DecodeWith(ParseRecordFixed, lines[1..]);
      assert r1 == (c, afterChild);
      var r2 := DecodeWith(ParseRecordFixed, r1.1);
      assert r2 == (s, rest);
      assert DecodeWith(ParseRecordFixed, lines) == (N(ParseRecordFixed(lines[0]), r1.0, r2.0), r2.1);
      ParseRecordFixedOfRecord(e);
  }

  /** How one step of `EncodeTerminated` followed by more lines splits. */
  lemma Unfold<T>(x: T, c: seq<T>, s: seq<T>, rest: seq<T>)
    ensures var lines := [x] + c + s + rest;
            lines[0] == x && lines[1..] == c + (s + rest)
  {
    assert [x] + c + s + rest == [x] + (c + (s + rest));
  }

  /** The whole file: the decoded tree is the tree written and every line is
      consumed. */
  lemma RoundTrip(t: Tree)
    requires PlainTree(t)
    ensures DecodeFixed(EncodeTerminated(t)) == (t, [])
  {
    RoundTripTerminated(t, []);
    assert EncodeTerminated(t) + [] == EncodeTerminated(t);
    assert DecodeFixed(EncodeTerminated(t)) == DecodeWith(ParseRecordFixed, EncodeTerminated(t));
  }
}
