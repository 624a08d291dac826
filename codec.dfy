/** The persistence codec as written: `serializeNode` writes one
    `name|isDirectory|content|createdAt|modifiedAt` line per node in the order
    node, child chain, sibling chain; `deserializeNode` reads lines back by
    recursive descent. Lines are modelled as a sequence of strings. */
module Codec {
  import opened Nodes
  import opened Decimal

  /** `out << bool` without `boolalpha`. */
  function Flag(b: bool): (r: string) { if b then "1" else "0" }

  /** The line `serializeNode` writes for one node. */
  function Record(e: Entry): (line: string)
    ensures line != ""
  {
    e.name + "|" + Flag(e.isDir) + "|" + e.content + "|" + Show(e.created) + "|" + Show(e.modified)
  }

  /** `serializeNode`: nothing for null, else the node's line, then its child
      chain, then its sibling chain. */
  function Encode(t: Tree): (lines: seq<string>)
    ensures |lines| == Size(t)
    ensures forall k :: 0 <= k < |lines| ==> lines[k] == Record(PreOrder(t)[k])
  {
    match t
    case Nil => []
    case N(e, c, s) =>
      var lines := [Record(e)] + Encode(c) + Encode(s);
      EncodeOrder(Record, e, PreOrder(c), PreOrder(s), Encode(c), Encode(s));
      lines
  }

  /** Index bookkeeping for one step of `Encode`: if `lc` and `ls` are `f`
      applied to `pc` and `ps` elementwise, so is `[f(x)] + lc + ls` to
      `[x] + pc + ps`. */
  lemma EncodeOrder<A, B>(f: A -> B, x: A, pc: seq<A>, ps: seq<A>, lc: seq<B>, ls: seq<B>)
    requires |lc| == |pc| && forall k :: 0 <= k < |lc| ==> lc[k] == f(pc[k])
    requires |ls| == |ps| && forall k :: 0 <= k < |ls| ==> ls[k] == f(ps[k])
    ensures var lines, xs := [f(x)] + lc + ls, [x] + pc + ps;
            forall k :: 0 <= k < |lines| ==> lines[k] == f(xs[k])
  {
    var lines, xs := [f(x)] + lc + ls, [x] + pc + ps;
    forall k | 0 <= k < |lines| ensures lines[k] == f(xs[k]) {
      if k == 0 {
      } else if k < 1 + |lc| {
        assert lines[k] == lc[k - 1] && xs[k] == pc[k - 1];
      } else {
        assert lines[k] == ls[k - 1 - |lc|] && xs[k] == ps[k - 1 - |lc|];
      }
    }
  }

  /** `serializeNode` never writes an empty line. */
  lemma EncodeNoEmptyLine(t: Tree)
    ensures forall k :: 0 <= k < |Encode(t)| ==> Encode(t)[k] != ""
  {
  }

  /** What `getline(ss, field, '|')` leaves behind: the field read, the
      characters not consumed, and whether the stream is still good. */
  datatype Field = Field(text: string, rest: string, good: bool)

  /** Position of the first `|` in `s`, or `|s|` when there is none. */
  function BarAt(s: string): (k: nat)
    ensures k <= |s| && '|' !in s[..k]
    ensures k < |s| ==> s[k] == '|'
  {
    if s == [] || s[0] == '|' then 0
    else
      var k := 1 + BarAt(s[1..]);
      assert s[..k] == [s[0]] + s[1..][..k - 1];
      k
  }

  /** `getline(ss, field, '|')` on a stream holding `s`. A failed or exhausted
      stream yields an empty field. Finding the delimiter consumes it and keeps
      the stream good; running into the end of the line does not. */
  function GetField(s: string, good: bool): (f: Field)
    ensures f.good ==> good && '|' !in f.text && s == f.text + "|" + f.rest
    ensures good && '|' !in s ==> f == Field(s, [], false)
  {
    if !good then Field("", s, false)
    else
      var k := BarAt(s);
      if k < |s| then
        assert s == s[..k] + "|" + s[k + 1..];
        Field(s[..k], s[k + 1..], true)
      else
        assert s[..k] == s;
        Field(s, [], false)
  }

  /** The fields of a line up to and including `createdAt`. */
  datatype Head = Head(name: string, flag: string, content: string, created: Extraction)

  /** Lines 70-76 of `deserializeNode` up to `ss >> createdAt`: three
      `getline` calls up to `|`, then one integer extraction. */
  function ReadHead(line: string): (r: Head)
  {
    var name := GetField(line, true);
    var flag := GetField(name.rest, name.good);
    var content := GetField(flag.rest, flag.good);
    var created := if content.good then ReadLong(content.rest) else Extraction(false, 0, content.rest);
    Head(name.text, flag.text, content.text, created)
  }

  /** The whole of lines 70-81: after `createdAt` comes `>> modifiedAt`,
      which meets the `|` that follows `createdAt`; `isDirectory` is set
      exactly when the second field is `1`. */
  function ParseRecord(line: string): (e: Entry)
    ensures var h := ReadHead(line);
            e.name == h.name && e.content == h.content && e.created == h.created.value
    ensures e.isDir <==> ReadHead(line).flag == "1"
  {
    var h := ReadHead(line);
    var modified := if h.created.good then ReadLong(h.created.rest) else Extraction(false, 0, h.created.rest);
    Entry(h.name, h.flag == "1", h.content, h.created.value, modified.value)
  }

  /** `deserializeNode` over the remaining lines: end of input reads nothing
      and yields null; an empty line is consumed and yields null; any other
      line builds a node, then its child chain, then its sibling chain. The
      result carries the lines still unread. */
  function DecodeWith(parse: string -> Entry, lines: seq<string>): (r: (Tree, seq<string>))
    ensures SuffixOf(r.1, lines)
    ensures r.0.N? ==> |r.1| < |lines| && r.0.entry == parse(lines[0])
    decreases |lines|
  {
    if lines == [] then (Nil, [])
    else if lines[0] == "" then (Nil, lines[1..])
    else
      var child := DecodeWith(parse, lines[1..]);
      var sib := DecodeWith(parse, child.1);
      SuffixTrans(sib.1, child.1, lines[1..]);
      SuffixTrans(sib.1, lines[1..], lines);
      (N(parse(lines[0]), child.0, sib.0), sib.1)
  }

  /** `r` is what is left of `s` after some lines were read. */
  predicate SuffixOf<T(==)>(r: seq<T>, s: seq<T>) { |r| <= |s| && r == s[|s| - |r|..] }

  lemma SuffixTrans<T>(a: seq<T>, b: seq<T>, c: seq<T>)
    requires SuffixOf(a, b) && (SuffixOf(b, c) || (c != [] && b == c[1..]))
    ensures SuffixOf(a, c)
  {
  }

  /** The decoder of the source, with its record parser. */
  function Decode(lines: seq<string>): (r: (Tree, seq<string>))
  {
    DecodeWith(ParseRecord, lines)
  }

  /** Names and contents free of the field separator and of the line break
      that `getline` splits the file at. */
  predicate Plain(e: Entry)
  {
    '|' !in e.name && '|' !in e.content && '\n' !in e.name && '\n' !in e.content
  }

  predicate PlainTree(t: Tree)
  {
    match t
    case Nil => true
    case N(e, c, s) => Plain(e) && PlainTree(c) && PlainTree(s)
  }

  /** A tree in which no node has a next sibling: one chain of first children. */
  predicate IsChain(t: Tree)
  {
    match t
    case Nil => true
    case N(_, c, s) => s == Nil && IsChain(c)
  }

  /** The chain of first children holding `es` in order. */
  function Spine(es: seq<Entry>): (t: Tree)
    ensures IsChain(t) && PreOrder(t) == es
  {
    if es == [] then Nil else N(es[0], Spine(es[1..]), Nil)
  }

  /** `es` with every `modifiedAt` replaced by 0. */
  function Stripped(es: seq<Entry>): (r: seq<Entry>)
    ensures |r| == |es|
    ensures forall k :: 0 <= k < |es| ==> r[k] == es[k].(modified := 0)
  {
    seq(|es|, k requires 0 <= k < |es| => es[k].(modified := 0))
  }

  function Count(lines: seq<string>): (n: nat)
    ensures n <= |lines|
  {
    if lines == [] then 0 else (if lines[0] == "" then 0 else 1) + Count(lines[1..])
  }

  /** The decoder consumes exactly one non-empty line per node it builds
      (plus the empty lines that end chains): the non-empty lines read are as
      many as the nodes built. */
  lemma {:induction false} DecodeConsumes(parse: string -> Entry, lines: seq<string>)
    ensures var r := DecodeWith(parse, lines);
            Count(lines) == Size(r.0) + Count(r.1)
    decreases |lines|
  {
    if lines != [] && lines[0] != "" {
      var r1 := DecodeWith(parse, lines[1..]);
      var r2 := DecodeWith(parse, r1.1);
      assert DecodeWith(parse, lines) == (N(parse(lines[0]), r1.0, r2.0), r2.1);
      DecodeConsumes(parse, lines[1..]);
      DecodeConsumes(parse, r1.1);
    }
  }

  /** The record parser applied to every line. */
  function ParseAll(parse: string -> Entry, lines: seq<string>): (es: seq<Entry>)
    ensures |es| == |lines|
    ensures forall k :: 0 <= k < |lines| ==> es[k] == parse(lines[k])
  {
    if lines == [] then [] else [parse(lines[0])] + ParseAll(parse, lines[1..])
  }

  /** Where no line is empty, every node read takes the next line as its first
      child and nothing is left for any sibling chain. */
  lemma {:induction false} DecodeNonEmpty(parse: string -> Entry, lines: seq<string>)
    requires forall k :: 0 <= k < |lines| ==> lines[k] != ""
    ensures DecodeWith(parse, lines) == (Spine(ParseAll(parse, lines)), [])
  {
    if lines != [] {
      assert lines[0] != "";
      DecodeNonEmpty(parse, lines[1..]);
      var c := Spine(ParseAll(parse, lines[1..]));
      assert DecodeWith(parse, lines[1..]) == (c, []);
      assert DecodeWith(parse, []) == (Nil, []);
      assert DecodeWith(parse, lines) == (N(parse(lines[0]), c, Nil), []);
      assert ParseAll(parse, lines)[1..] == ParseAll(parse, lines[1..]);
    }
  }

  /** `serializeNode` followed by the record parser returns the entry with
      `modifiedAt` lost: `ss >> modifiedAt` meets a `|` and stores 0. */
  lemma ParseRecordOfRecord(e: Entry)
    requires Plain(e)
    ensures ParseRecord(Record(e)) == e.(modified := 0)
  {
    ReadHeadOfRecord(e);
    ReadAtBar(Show(e.modified));
  }

  /** The three `getline` calls and `>> createdAt` on a record: each field
      comes back, and the stream stops in front of the `|` that precedes
      `modifiedAt`. */
  lemma ReadHeadOfRecord(e: Entry)
    requires Plain(e)
    ensures ReadHead(Record(e)) == Head(e.name, Flag(e.isDir), e.content, Extraction(true, e.created, "|" + Show(e.modified)))
  {
    var tail := "|" + Show(e.modified);
    var afterContent := Show(e.created) + tail;
    var afterFlag := e.content + "|" + afterContent;
    var afterName := Flag(e.isDir) + "|" + afterFlag;
    assert Record(e) == e.name + "|" + afterName;
    GetFieldAtBar(e.name, afterName);
    GetFieldAtBar(Flag(e.isDir), afterFlag);
    GetFieldAtBar(e.content, afterContent);
    ReadShow(e.created, tail);
  }

  /** `getline` up to a `|` that is really there. */
  lemma GetFieldAtBar(p: string, q: string)
    requires '|' !in p
    ensures GetField(p + "|" + q, true) == Field(p, q, true)
  {
    var s := p + "|" + q;
    assert s[|p|] == '|' && s[..|p|] == p;
    assert BarAt(s) == |p| by { BarAtPrefix(p, q); }
    assert s[|p| + 1..] == q;
  }

  lemma {:induction false} BarAtPrefix(p: string, q: string)
    requires '|' !in p
    ensures BarAt(p + "|" + q) == |p|
  {
    if p != [] {
      assert p[0] in p;
      assert (p + "|" + q)[1..] == p[1..] + "|" + q;
      assert forall c :: c in p[1..] ==> c in p;
      BarAtPrefix(p[1..], q);
    }
  }

  /** `ss >> v` in front of a `|` fails and stores 0. */
  lemma ReadAtBar(q: string)
    ensures ReadLong("|" + q) == Extraction(false, 0, "|" + q)
  {
    var s := "|" + q;
    assert s[0] == '|';
    assert SkipSpace(s) == s;
    assert DigitRun(s) == 0;
  }

  /** On encoder output the decoder builds a single chain of first children
      holding every node's name, kind, content and `createdAt` in encoding
      order, with `modifiedAt` 0, and consumes every line. */
  lemma DecodeOfEncode(t: Tree)
    requires PlainTree(t)
    ensures var (d, rest) := Decode(Encode(t));
            rest == [] && IsChain(d) && PreOrder(d) == Stripped(PreOrder(t))
  {
    var lines := Encode(t);
    DecodeNonEmpty(ParseRecord, lines);
    ParseEncoded(t);
  }

  /** Parsing every line of the encoder's output. */
  lemma ParseEncoded(t: Tree)
    requires PlainTree(t)
    ensures ParseAll(ParseRecord, Encode(t)) == Stripped(PreOrder(t))
  {
    var lines := Encode(t);
    var es := ParseAll(ParseRecord, lines);
    PlainPreOrder(t);
    forall k | 0 <= k < |lines| ensures es[k] == Stripped(PreOrder(t))[k] {
      ParseRecordOfRecord(PreOrder(t)[k]);
    }
  }

  /** For a plain tree, `serializeNode` writes one file line per node: no
      record holds a line break that `getline` would split it at. */
  lemma EncodeUnbroken(t: Tree)
    requires PlainTree(t)
    ensures forall k :: 0 <= k < |Encode(t)| ==> '\n' !in Encode(t)[k]
  {
    PlainPreOrder(t);
    forall k | 0 <= k < |Encode(t)| ensures '\n' !in Encode(t)[k] {
      RecordUnbroken(PreOrder(t)[k]);
    }
  }

  lemma RecordUnbroken(e: Entry)
    requires Plain(e)
    ensures '\n' !in Record(e)
  {
    assert '\n' !in Flag(e.isDir);
  }

  lemma {:induction false} PlainPreOrder(t: Tree)
    requires PlainTree(t)
    ensures forall k :: 0 <= k < |PreOrder(t)| ==> Plain(PreOrder(t)[k])
  {
    match t
    case Nil =>
    case N(e, c, s) =>
      PlainPreOrder(c);
      PlainPreOrder(s);
      forall k | 0 <= k < |PreOrder(t)| ensures Plain(PreOrder(t)[k]) {
        if 1 <= k < 1 + Size(c) {
          assert PreOrder(t)[k] == PreOrder(c)[k - 1];
        } else if 1 + Size(c) <= k {
          assert PreOrder(t)[k] == PreOrder(s)[k - 1 - Size(c)];
        }
      }
  }

  /** A chain is determined by its entries. */
  lemma {:induction false} ChainIsSpine(t: Tree)
    requires IsChain(t)
    ensures t == Spine(PreOrder(t))
  {
    match t
    case Nil =>
    case N(e, c, s) =>
      ChainIsSpine(c);
      assert PreOrder(t) == [e] + PreOrder(c);
      assert PreOrder(t)[1..] == PreOrder(c);
  }

  /** Writing a tree and reading it back gives the same tree exactly when the
      tree is a single chain of first children whose `modifiedAt` are all 0. */
  lemma RoundTripIff(t: Tree)
    requires PlainTree(t)
    ensures Decode(Encode(t)).0 == t
        <==> IsChain(t) && forall k :: 0 <= k < |PreOrder(t)| ==> PreOrder(t)[k].modified == 0
  {
    var d := Decode(Encode(t)).0;
    DecodeOfEncode(t);
    ChainIsSpine(d);
    StrippedFixed(PreOrder(t));
    if IsChain(t) {
      ChainIsSpine(t);
    }
  }

  /** Clearing `modifiedAt` changes nothing exactly when every one is 0. */
  lemma StrippedFixed(es: seq<Entry>)
    ensures Stripped(es) == es <==> forall k :: 0 <= k < |es| ==> es[k].modified == 0
  {
    if forall k :: 0 <= k < |es| ==> es[k].modified == 0 {
      assert forall k :: 0 <= k < |es| ==> Stripped(es)[k] == es[k];
    }
    if Stripped(es) == es {
      assert forall k :: 0 <= k < |es| ==> Stripped(es)[k].modified == 0;
    }
  }

  /** The round trip fails on a directory holding two entries: the second
      entry is read back as a child of the first. */
  lemma SiblingsBecomeChildren(now: Time)
    ensures var t := N(NewEntry("/", true, now),
                       N(NewEntry("b", true, now), Nil, N(NewEntry("a", true, now), Nil, Nil)),
                       Nil);
            Decode(Encode(t)).0 != t
  {
    var t := N(NewEntry("/", true, now),
               N(NewEntry("b", true, now), Nil, N(NewEntry("a", true, now), Nil, Nil)),
               Nil);
    assert PlainTree(N(NewEntry("a", true, now), Nil, Nil));
    assert PlainTree(t.child);
    RoundTripIff(t);
    assert !IsChain(t);
  }
}
