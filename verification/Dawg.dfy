/**
 The packed word graph of Unicode names (scripts/generate_unicode_name_table.py).

 A node is one varint (descendant count, final flag) followed by its edges.
 An edge is a varint (child offset difference, one-byte-label flag, last-edge
 flag), an optional varint with the label length, and the label bytes.  A node
 without edges stores a zero where its first edge would be.
 */
module Dawg {
  import opened Common
  import opened Bits

  datatype Error = IndexError | PastFinalNode | NotFound | NotAscii | LengthMismatch | MissingPosition

  datatype Node = Node(count: nat, final: bool, next: nat)

  datatype Edge = Edge(child: nat, last: bool, size: nat, textAt: nat)

  // ---------------------------------------------------------------- varints

  /** Little-endian base-128 number starting at `index`, and the index after it. */
  function Varint(data: seq<byte>, index: nat): (r: Result<(nat, nat), Error>)
    ensures r.Ok? ==> index < r.value.1 <= |data|
    decreases |data| - index
  {
    if index >= |data| then Err(IndexError)
    else if data[index] < 128 then Ok((data[index], index + 1))
    else
      var rest :- Varint(data, index + 1);
      Ok((data[index] % 128 + 128 * rest.0, rest.1))
  }

  /** The number a decoded tail `r` denotes behind `out`, which holds the low `shift` bits. */
  ghost function Behind7(out: nat, shift: nat, r: Result<(nat, nat), Error>): Result<(nat, nat), Error> {
    if r.Ok? then Ok((out + r.value.0 * Pow2(shift), r.value.1)) else r
  }

  lemma VarintStep(data: seq<byte>, index: nat, out: nat, shift: nat)
    requires index < |data| && out < Pow2(shift)
    ensures WithBits(out, data[index], shift) < Pow2(shift + 7)
    ensures data[index] < 128 ==> Behind7(out, shift, Varint(data, index)) == Ok((WithBits(out, data[index], shift), index + 1))
    ensures data[index] >= 128 ==>
              Behind7(out, shift, Varint(data, index)) == Behind7(WithBits(out, data[index], shift), shift + 7, Varint(data, index + 1))
  {
    var rest := Varint(data, index + 1);
    Pow2Plus7(shift);
    Shift7(out, data[index] % 128, if rest.Ok? then rest.value.0 else 0, Pow2(shift));
  }

  /** The accumulator loop.  `out < Pow2(shift)` is what makes the source's
      bitwise or of the next seven bits an addition. */
  method DecodeVarintUnsigned(data: seq<byte>, start: nat) returns (r: Result<(nat, nat), Error>)
    ensures r == Varint(data, start)
  {
    var out: nat, shift: nat, index: nat := 0, 0, start;
    while true
      invariant out < Pow2(shift)
      invariant Varint(data, start) == Behind7(out, shift, Varint(data, index))
      decreases |data| - index
    {
      if index >= |data| {
        return Err(IndexError);
      }
      VarintStep(data, index, out, shift);
      var b := data[index];
      out := WithBits(out, b, shift);
      index := index + 1;
      shift := shift + 7;
      if b < 128 {
        return Ok((out, index));
      }
    }
  }

  /** The encoder the reader inverts. */
  function EncodeVarint(n: nat): (r: seq<byte>)
    ensures |r| > 0
  {
    if n < 128 then [n] else [128 + n % 128] + EncodeVarint(n / 128)
  }

  lemma {:induction false} VarintRoundTrip(n: nat, before: seq<byte>, after: seq<byte>)
    ensures Varint(before + EncodeVarint(n) + after, |before|)
         == Ok((n, |before| + |EncodeVarint(n)|))
    decreases n
  {
    var data := before + EncodeVarint(n) + after;
    assert data[|before|] == EncodeVarint(n)[0];
    if n >= 128 {
      var lead := before + [EncodeVarint(n)[0]];
      assert data == lead + EncodeVarint(n / 128) + after;
      VarintRoundTrip(n / 128, lead, after);
    }
  }

  // ----------------------------------------------------------- nodes, edges

  function DecodeNode(packed: seq<byte>, offset: nat): (r: Result<Node, Error>)
    ensures r.Ok? ==> offset < r.value.next <= |packed|
  {
    var x :- Varint(packed, offset);
    Ok(Node(x.0 / 2, x.0 % 2 == 1, x.1))
  }

  function DecodeEdge(packed: seq<byte>, edgeIndex: nat, prevChild: nat, offset: nat): (r: Result<Edge, Error>)
    ensures r.Ok? ==> prevChild <= r.value.child && offset < r.value.textAt <= |packed|
  {
    var x :- Varint(packed, offset);
    if x.0 == 0 && edgeIndex == 0 then Err(PastFinalNode)
    else
      var child := prevChild + x.0 / 4;
      var last := x.0 % 2 == 1;
      if x.0 / 2 % 2 == 1 then Ok(Edge(child, last, 1, x.1))
      else
        var size :- Varint(packed, x.1);
        Ok(Edge(child, last, size.0, size.1))
  }

  /** Python slicing: clamped to the list. */
  function Slice(s: seq<byte>, from: nat, size: nat): seq<byte> {
    if from >= |s| then []
    else if from + size > |s| then s[from..]
    else s[from..from + size]
  }

  function Ascii(bytes: seq<byte>): (r: Result<string, Error>)
    ensures r.Ok? <==> forall b :: b in bytes ==> b < 128
    ensures r.Ok? ==> |r.value| == |bytes| && forall i :: 0 <= i < |bytes| ==> r.value[i] as int == bytes[i]
    ensures r.Err? ==> r.error == NotAscii
  {
    if forall b :: b in bytes ==> b < 128
    then Ok(seq(|bytes|, i requires 0 <= i < |bytes| => bytes[i] as char))
    else Err(NotAscii)
  }

  // ------------------------------------------------------ the walk, as code

  /** What the walk returns from the node at `offset`, for any byte array. */
  function Walk(packed: seq<byte>, offset: nat, pos: nat): Result<seq<byte>, Error>
    decreases |packed| - offset, 0, 0
  {
    var node :- DecodeNode(packed, offset);
    if node.final && pos == 0 then Ok([])
    else WalkEdges(packed, 0, node.next, node.next, if node.final then pos - 1 else pos)
  }

  function WalkEdges(packed: seq<byte>, edgeIndex: nat, prevChild: nat, offset: nat, pos: nat)
    : Result<seq<byte>, Error>
    requires prevChild <= |packed|
    decreases |packed| - prevChild, 1, |packed| - offset
  {
    var edge :- DecodeEdge(packed, edgeIndex, prevChild, offset);
    var child :- DecodeNode(packed, edge.child);
    if pos < child.count then
      var rest :- Walk(packed, edge.child, pos);
      Ok(Slice(packed, edge.textAt, edge.size) + rest)
    else if edge.last then Err(NotFound)
    else WalkEdges(packed, edgeIndex + 1, edge.child, edge.textAt + edge.size, pos - child.count)
  }

  function NameAt(packed: seq<byte>, pos: nat): Result<string, Error> {
    var word :- Walk(packed, 0, pos);
    Ascii(word)
  }

  function Prepend(out: seq<byte>, r: Result<seq<byte>, Error>): (p: Result<seq<byte>, Error>)
    ensures out == [] ==> p == r
  {
    assert r.Ok? ==> [] + r.value == r.value;
    if r.Ok? then Ok(out + r.value) else r
  }

  /** The two nested loops.  They terminate on every byte array: a child lies
      strictly above its parent, and every edge read moves forward. */
  method InverseLookupName(packed: seq<byte>, position: nat) returns (r: Result<string, Error>)
    ensures r == NameAt(packed, position)
  {
    var out: seq<byte> := [];
    var pos: nat, nodeOffset: nat := position, 0;
    while true
      invariant Walk(packed, 0, position) == Prepend(out, Walk(packed, nodeOffset, pos))
      decreases |packed| - nodeOffset
    {
      ghost var atNode := Walk(packed, nodeOffset, pos);
      ghost var before := out;
      var node :- DecodeNode(packed, nodeOffset);
      if node.final {
        if pos == 0 {
          assert out + [] == out;
          return Ascii(out);
        }
        pos := pos - 1;
      }
      var edgeOffset, prevChild, edgeIndex := node.next, node.next, 0;
      while true
        invariant nodeOffset < prevChild <= |packed|
        invariant out == before
        invariant atNode == WalkEdges(packed, edgeIndex, prevChild, edgeOffset, pos)
        decreases |packed| - edgeOffset
      {
        var edge :- DecodeEdge(packed, edgeIndex, prevChild, edgeOffset);
        var child :- DecodeNode(packed, edge.child);
        edgeIndex := edgeIndex + 1;
        prevChild := edge.child;
        if pos < child.count {
          var text := Slice(packed, edge.textAt, edge.size);
          if Walk(packed, edge.child, pos).Ok? {
            ghost var rest := Walk(packed, edge.child, pos).value;
            assert before + (text + rest) == before + text + rest;
          }
          out := out + text;
          nodeOffset := edge.child;
          break;
        }
        if edge.last {
          return Err(NotFound);
        }
        pos := pos - child.count;
        edgeOffset := edge.textAt + edge.size;
      }
    }
  }

  // ------------------------------------------------- the language of a node

  /** A node with everything below it, and the list of its labelled children. */
  datatype Trie = Trie(count: nat, final: bool, kids: Kids)

  datatype Kids = NoKids | Kid(text: seq<byte>, child: Trie, rest: Kids)

  /** The trie the bytes at `offset` spell out, reading every edge to the last-edge flag. */
  function Decode(packed: seq<byte>, offset: nat): Result<Trie, Error>
    decreases |packed| - offset, 0, 0
  {
    var node :- DecodeNode(packed, offset);
    var kids :- DecodeKids(packed, 0, node.next, node.next);
    Ok(Trie(node.count, node.final, kids))
  }

  function DecodeKids(packed: seq<byte>, edgeIndex: nat, prevChild: nat, offset: nat): Result<Kids, Error>
    requires prevChild <= |packed|
    decreases |packed| - prevChild, 1, |packed| - offset
  {
    match DecodeEdge(packed, edgeIndex, prevChild, offset)
    case Err(PastFinalNode) => Ok(NoKids)
    case Err(e) => Err(e)
    case Ok(edge) =>
      if edge.child >= |packed| then Err(IndexError)
      else
        var child :- Decode(packed, edge.child);
        var rest :- if edge.last then Ok(NoKids)
                    else DecodeKids(packed, edgeIndex + 1, edge.child, edge.textAt + edge.size);
        Ok(Kid(Slice(packed, edge.textAt, edge.size), child, rest))
  }

  /** Every stored count is the final flag plus the counts of the children. */
  predicate Counted(t: Trie) {
    CountedKids(t.kids) && t.count == (if t.final then 1 else 0) + Total(t.kids)
  }

  predicate CountedKids(ks: Kids) {
    ks.Kid? ==> Counted(ks.child) && CountedKids(ks.rest)
  }

  function Total(ks: Kids): nat {
    if ks.NoKids? then 0 else ks.child.count + Total(ks.rest)
  }

  /** The words of a node, in order: the empty word first if the node is final,
      then the words of each child behind its label. */
  function Words(t: Trie): seq<seq<byte>> {
    (if t.final then [[]] else []) + KidWords(t.kids)
  }

  function KidWords(ks: Kids): seq<seq<byte>> {
    if ks.NoKids? then [] else Behind(ks.text, Words(ks.child)) + KidWords(ks.rest)
  }

  function Behind(text: seq<byte>, words: seq<seq<byte>>): (r: seq<seq<byte>>)
    ensures |r| == |words|
    ensures forall i :: 0 <= i < |words| ==> r[i] == text + words[i]
  {
    seq(|words|, i requires 0 <= i < |words| => text + words[i])
  }

  // ------------------------------------------------------- the bytes of a trie

  /** `bytes` stand at `at`. */
  predicate Stands(packed: seq<byte>, at: nat, bytes: seq<byte>) {
    at + |bytes| <= |packed| && packed[at..at + |bytes|] == bytes
  }

  /** What a node starts with: its count, with the final flag as the lowest bit. */
  function NodeHead(t: Trie): seq<byte> {
    EncodeVarint(2 * t.count + if t.final then 1 else 0)
  }

  /** What an edge starts with: how far its child is behind the one before, then
      a flag for a label of one byte, and lowest the flag for the last edge. */
  function EdgeMark(ks: Kids, difference: nat): nat
    requires ks.Kid?
  {
    4 * difference + (if |ks.text| == 1 then 2 else 0) + (if ks.rest.NoKids? then 1 else 0)
  }

  /** The bytes of an edge: its mark, the length of its label unless it is one
      byte, and the label. */
  function EdgeBytes(ks: Kids, difference: nat): seq<byte>
    requires ks.Kid?
  {
    EncodeVarint(EdgeMark(ks, difference)) + LabelBytes(ks.text)
  }

  function LabelBytes(text: seq<byte>): seq<byte> {
    (if |text| == 1 then [] else EncodeVarint(|text|)) + text
  }

  /** The trie is laid out from `at` on: its head, and behind it its edges, or a
      zero if there are none. */
  ghost predicate LaidOut(packed: seq<byte>, at: nat, t: Trie)
    decreases t
  {
    && Stands(packed, at, NodeHead(t))
    && var edges := at + |NodeHead(t)|;
       if t.kids.NoKids? then Stands(packed, edges, [0]) else EdgesLaidOut(packed, edges, edges, t.kids, true)
  }

  /** Edge behind edge, each with its child laid out where its difference says;
      the mark of a first edge is not zero. */
  ghost predicate EdgesLaidOut(packed: seq<byte>, at: nat, prevChild: nat, ks: Kids, first: bool)
    requires ks.Kid?
    decreases ks
  {
    exists difference: nat :: EdgeLaidOut(packed, at, prevChild, ks, first, difference)
  }

  ghost predicate EdgeLaidOut(packed: seq<byte>, at: nat, prevChild: nat, ks: Kids, first: bool, difference: nat)
    requires ks.Kid?
    decreases ks, 0
  {
    && (first ==> EdgeMark(ks, difference) != 0)
    && Stands(packed, at, EdgeBytes(ks, difference))
    && LaidOut(packed, prevChild + difference, ks.child)
    && (ks.rest.Kid? ==>
          EdgesLaidOut(packed, at + |EdgeBytes(ks, difference)|, prevChild + difference, ks.rest, false))
  }

  lemma VarintStands(packed: seq<byte>, at: nat, n: nat)
    requires Stands(packed, at, EncodeVarint(n))
    ensures Varint(packed, at) == Ok((n, at + |EncodeVarint(n)|))
  {
    var end := at + |EncodeVarint(n)|;
    assert packed == packed[..at] + EncodeVarint(n) + packed[end..];
    VarintRoundTrip(n, packed[..at], packed[end..]);
  }

  lemma StandsSplit(packed: seq<byte>, at: nat, a: seq<byte>, b: seq<byte>)
    requires Stands(packed, at, a + b)
    ensures Stands(packed, at, a) && Stands(packed, at + |a|, b)
  {
    assert packed[at..at + |a|] == (a + b)[..|a|] && packed[at + |a|..at + |a| + |b|] == (a + b)[|a|..];
  }

  /** The head of a laid-out node is read back. */
  lemma NodeStands(packed: seq<byte>, at: nat, t: Trie)
    requires Stands(packed, at, NodeHead(t))
    ensures DecodeNode(packed, at) == Ok(Node(t.count, t.final, at + |NodeHead(t)|))
  {
    VarintStands(packed, at, 2 * t.count + if t.final then 1 else 0);
  }

  /** The difference and the flags are read from the mark of an edge. */
  lemma MarkRead(ks: Kids, difference: nat)
    requires ks.Kid?
    ensures var x := EdgeMark(ks, difference);
      x / 4 == difference && (x / 2 % 2 == 1 <==> |ks.text| == 1) && (x % 2 == 1 <==> ks.rest.NoKids?)
  {
  }

  lemma EdgeRead(packed: seq<byte>, edgeIndex: nat, prevChild: nat, at: nat, x: nat, next: nat, edge: Edge)
    requires Varint(packed, at) == Ok((x, next)) && (edgeIndex == 0 ==> x != 0)
    requires edge.child == prevChild + x / 4 && (edge.last <==> x % 2 == 1)
    requires if x / 2 % 2 == 1 then edge.size == 1 && edge.textAt == next else Varint(packed, next) == Ok((edge.size, edge.textAt))
    ensures DecodeEdge(packed, edgeIndex, prevChild, at) == Ok(edge)
  {
  }

  lemma SliceStands(packed: seq<byte>, at: nat, bytes: seq<byte>)
    requires Stands(packed, at, bytes)
    ensures Slice(packed, at, |bytes|) == bytes
  {
  }

  lemma LabelStands(packed: seq<byte>, at: nat, text: seq<byte>) returns (textAt: nat)
    requires Stands(packed, at, LabelBytes(text))
    ensures textAt + |text| == at + |LabelBytes(text)| && Slice(packed, textAt, |text|) == text
    ensures if |text| == 1 then textAt == at else Varint(packed, at) == Ok((|text|, textAt))
  {
    var size := if |text| == 1 then [] else EncodeVarint(|text|);
    StandsSplit(packed, at, size, text);
    textAt := at + |size|;
    SliceStands(packed, textAt, text);
    if |text| != 1 {
      VarintStands(packed, at, |text|);
    }
  }

  lemma MarkStands(packed: seq<byte>, at: nat, ks: Kids, difference: nat) returns (next: nat)
    requires ks.Kid? && Stands(packed, at, EdgeBytes(ks, difference))
    ensures Varint(packed, at) == Ok((EdgeMark(ks, difference), next))
    ensures Stands(packed, next, LabelBytes(ks.text)) && next + |LabelBytes(ks.text)| == at + |EdgeBytes(ks, difference)|
  {
    var mark := EncodeVarint(EdgeMark(ks, difference));
    StandsSplit(packed, at, mark, LabelBytes(ks.text));
    VarintStands(packed, at, EdgeMark(ks, difference));
    next := at + |mark|;
  }

  /** So are the parts of a laid-out edge. */
  lemma EdgeStands(packed: seq<byte>, edgeIndex: nat, prevChild: nat, at: nat, ks: Kids, difference: nat) returns (edge: Edge)
    requires ks.Kid? && Stands(packed, at, EdgeBytes(ks, difference))
    requires edgeIndex == 0 ==> EdgeMark(ks, difference) != 0
    ensures DecodeEdge(packed, edgeIndex, prevChild, at) == Ok(edge)
    ensures edge.child == prevChild + difference && (edge.last <==> ks.rest.NoKids?)
    ensures edge.textAt + edge.size == at + |EdgeBytes(ks, difference)| && Slice(packed, edge.textAt, edge.size) == ks.text
  {
    var next := MarkStands(packed, at, ks, difference);
    var textAt := LabelStands(packed, next, ks.text);
    MarkRead(ks, difference);
    edge := Edge(prevChild + difference, ks.rest.NoKids?, |ks.text|, textAt);
    EdgeRead(packed, edgeIndex, prevChild, at, EdgeMark(ks, difference), next, edge);
  }

  lemma KidsRead(packed: seq<byte>, edgeIndex: nat, prevChild: nat, at: nat, edge: Edge, ks: Kids)
    requires prevChild <= |packed| && DecodeEdge(packed, edgeIndex, prevChild, at) == Ok(edge) && ks.Kid?
    requires edge.child < |packed| && Decode(packed, edge.child) == Ok(ks.child)
    requires Slice(packed, edge.textAt, edge.size) == ks.text
    requires if edge.last then ks.rest == NoKids
             else DecodeKids(packed, edgeIndex + 1, edge.child, edge.textAt + edge.size) == Ok(ks.rest)
    ensures DecodeKids(packed, edgeIndex, prevChild, at) == Ok(ks)
  {
  }

  /** The bytes of a trie, wherever they stand, are decoded to it. */
  lemma {:induction false} LayoutDecodes(packed: seq<byte>, at: nat, t: Trie)
    requires LaidOut(packed, at, t)
    ensures at < |packed| && Decode(packed, at) == Ok(t)
    decreases t
  {
    NodeStands(packed, at, t);
    var edges := at + |NodeHead(t)|;
    if t.kids.NoKids? {
      assert packed[edges] == packed[edges..edges + 1][0];
    } else {
      EdgesDecode(packed, 0, edges, edges, t.kids);
    }
  }

  /** The first of laid-out edges is decoded, and its child and the others are laid out. */
  lemma FirstEdge(packed: seq<byte>, edgeIndex: nat, prevChild: nat, at: nat, ks: Kids) returns (edge: Edge)
    requires ks.Kid? && EdgesLaidOut(packed, at, prevChild, ks, edgeIndex == 0)
    ensures DecodeEdge(packed, edgeIndex, prevChild, at) == Ok(edge) && LaidOut(packed, edge.child, ks.child)
    ensures Slice(packed, edge.textAt, edge.size) == ks.text && (edge.last <==> ks.rest.NoKids?)
    ensures ks.rest.Kid? ==> EdgesLaidOut(packed, edge.textAt + edge.size, edge.child, ks.rest, false)
  {
    var difference: nat :| EdgeLaidOut(packed, at, prevChild, ks, edgeIndex == 0, difference);
    edge := EdgeStands(packed, edgeIndex, prevChild, at, ks, difference);
  }

  lemma {:induction false} EdgesDecode(packed: seq<byte>, edgeIndex: nat, prevChild: nat, at: nat, ks: Kids)
    requires ks.Kid? && prevChild <= |packed| && EdgesLaidOut(packed, at, prevChild, ks, edgeIndex == 0)
    ensures DecodeKids(packed, edgeIndex, prevChild, at) == Ok(ks)
    decreases ks
  {
    var edge := FirstEdge(packed, edgeIndex, prevChild, at, ks);
    LayoutDecodes(packed, edge.child, ks.child);
    if ks.rest.Kid? {
      EdgesDecode(packed, edgeIndex + 1, edge.child, edge.textAt + edge.size, ks.rest);
    }
    KidsRead(packed, edgeIndex, prevChild, at, edge, ks);
  }

  /** The words a and b in seven bytes. */
  lemma TwoLetters()
    ensures var leaf := Trie(1, true, NoKids);
            LaidOut([4, 18, 97, 3, 98, 3, 0], 0, Trie(2, false, Kid([97], leaf, Kid([98], leaf, NoKids))))
  {
    var packed: seq<byte> := [4, 18, 97, 3, 98, 3, 0];
    var leaf := Trie(1, true, NoKids);
    var second := Kid([98], leaf, NoKids);
    var first := Kid([97], leaf, second);
    assert LaidOut(packed, 5, leaf);
    assert EdgeBytes(second, 0) == [3, 98] && packed[3..5] == [3, 98];
    assert EdgeLaidOut(packed, 3, 5, second, false, 0);
    assert EdgeBytes(first, 4) == [18, 97] && packed[1..3] == [18, 97];
    assert EdgeLaidOut(packed, 1, 1, first, true, 4);
  }

  // ----------------------------------------- the walk finds the pos-th word

  /** A word, the two ways to say there is none, or a failure of another kind. */
  datatype Lookup = Word(word: seq<byte>) | Absent | Broken

  function Outcome(r: Result<seq<byte>, Error>): Lookup {
    match r
    case Ok(word) => Word(word)
    case Err(NotFound) => Absent
    case Err(PastFinalNode) => Absent
    case Err(_) => Broken
  }

  /** The reference reading of a lookup in a word list. */
  function Expected(words: seq<seq<byte>>, pos: nat): Lookup {
    if pos < |words| then Word(words[pos]) else Absent
  }

  lemma {:induction false} CountIsWordCount(t: Trie)
    requires Counted(t)
    ensures |Words(t)| == t.count
  {
    TotalIsWordCount(t.kids);
  }

  lemma {:induction false} TotalIsWordCount(ks: Kids)
    requires CountedKids(ks)
    ensures |KidWords(ks)| == Total(ks)
  {
    if ks.Kid? {
      CountIsWordCount(ks.child);
      TotalIsWordCount(ks.rest);
    }
  }

  /** For every byte array whose stored counts are right, walking for `pos`
      gives exactly the pos-th word, and fails from the count on. */
  lemma {:induction false} WalkFindsWord(packed: seq<byte>, offset: nat, pos: nat, t: Trie)
    requires Decode(packed, offset) == Ok(t) && Counted(t)
    ensures Outcome(Walk(packed, offset, pos)) == Expected(Words(t), pos)
    decreases |packed| - offset, 0, 0, 0
  {
    var node := DecodeNode(packed, offset).value;
    if !(node.final && pos == 0) {
      var left := if node.final then pos - 1 else pos;
      WalkEdgesFindsWord(packed, 0, node.next, node.next, left, t.kids);
      assert Walk(packed, offset, pos) == WalkEdges(packed, 0, node.next, node.next, left);
      FindsBehindFinal(t, pos, left);
    }
  }

  /** In an array that holds the bytes of a trie with right counts, looking up a
      position gives the word there, if it is in ASCII, and fails from the count on. */
  lemma LaidOutLookup(packed: seq<byte>, t: Trie, pos: nat)
    requires LaidOut(packed, 0, t) && Counted(t)
    ensures pos < t.count ==> pos < |Words(t)| && NameAt(packed, pos) == Ascii(Words(t)[pos])
    ensures pos >= t.count ==> NameAt(packed, pos) in {Err(NotFound), Err(PastFinalNode)}
  {
    LayoutDecodes(packed, 0, t);
    CountIsWordCount(t);
    WalkFindsWord(packed, 0, pos, t);
  }

  /** A final node has the empty word in front. */
  lemma FindsBehindFinal(t: Trie, pos: nat, left: nat)
    requires pos == if t.final then left + 1 else left
    ensures Expected(Words(t), pos) == Expected(KidWords(t.kids), left)
  {
    var front: seq<seq<byte>> := if t.final then [[]] else [];
    assert left < |KidWords(t.kids)| ==> (front + KidWords(t.kids))[pos] == KidWords(t.kids)[left];
  }

  function Lengthened(text: seq<byte>, o: Lookup): Lookup {
    if o.Word? then Word(text + o.word) else o
  }

  lemma OutcomePrepend(text: seq<byte>, r: Result<seq<byte>, Error>)
    ensures Outcome(Prepend(text, r)) == Lengthened(text, Outcome(r))
  {
  }

  lemma FindsHere(ks: Kids, pos: nat, o: Lookup)
    requires ks.Kid? && pos < |Words(ks.child)| && o == Expected(Words(ks.child), pos)
    ensures Lengthened(ks.text, o) == Expected(KidWords(ks), pos)
  {
  }

  lemma FindsThere(ks: Kids, pos: nat, count: nat, o: Lookup)
    requires ks.Kid? && pos >= count == |Words(ks.child)| && o == Expected(KidWords(ks.rest), pos - count)
    ensures o == Expected(KidWords(ks), pos)
  {
    var words, rest := Behind(ks.text, Words(ks.child)), KidWords(ks.rest);
    assert pos - count < |rest| ==> (words + rest)[pos] == rest[pos - count];
  }

  lemma FindsNoMore(pos: nat)
    ensures Absent == Expected(KidWords(NoKids), pos)
  {
  }

  /** What the children at an edge are: the first one and the rest. */
  lemma KidsAtEdge(packed: seq<byte>, edgeIndex: nat, prevChild: nat, offset: nat, edge: Edge, ks: Kids)
    requires prevChild <= |packed| && DecodeEdge(packed, edgeIndex, prevChild, offset) == Ok(edge)
    requires DecodeKids(packed, edgeIndex, prevChild, offset) == Ok(ks)
    ensures ks.Kid? && edge.child < |packed| && Decode(packed, edge.child) == Ok(ks.child)
    ensures ks.text == Slice(packed, edge.textAt, edge.size)
    ensures if edge.last then ks.rest == NoKids
            else DecodeKids(packed, edgeIndex + 1, edge.child, edge.textAt + edge.size) == Ok(ks.rest)
  {
  }

  /** What a walk does at an edge. */
  lemma WalkAtEdge(packed: seq<byte>, edgeIndex: nat, prevChild: nat, offset: nat, pos: nat, edge: Edge, count: nat)
    requires prevChild <= |packed| && DecodeEdge(packed, edgeIndex, prevChild, offset) == Ok(edge)
    requires edge.child < |packed| && DecodeNode(packed, edge.child).Ok?
    requires count == DecodeNode(packed, edge.child).value.count
    ensures WalkEdges(packed, edgeIndex, prevChild, offset, pos)
         == if pos < count then Prepend(Slice(packed, edge.textAt, edge.size), Walk(packed, edge.child, pos))
            else if edge.last then Err(NotFound)
            else WalkEdges(packed, edgeIndex + 1, edge.child, edge.textAt + edge.size, pos - count)
  {
  }

  /** A walk that turns into the first child. */
  lemma TurnsIn(packed: seq<byte>, edgeIndex: nat, prevChild: nat, offset: nat, pos: nat, edge: Edge, ks: Kids, o: Lookup)
    requires prevChild <= |packed| && DecodeEdge(packed, edgeIndex, prevChild, offset) == Ok(edge)
    requires DecodeKids(packed, edgeIndex, prevChild, offset) == Ok(ks) && ks.Kid? && edge.child < |packed|
    requires Decode(packed, edge.child) == Ok(ks.child) && pos < ks.child.count
    requires Outcome(Walk(packed, edge.child, pos)) == o
    ensures Outcome(WalkEdges(packed, edgeIndex, prevChild, offset, pos)) == Lengthened(ks.text, o)
  {
    KidsAtEdge(packed, edgeIndex, prevChild, offset, edge, ks);
    WalkAtEdge(packed, edgeIndex, prevChild, offset, pos, edge, ks.child.count);
    OutcomePrepend(ks.text, Walk(packed, edge.child, pos));
  }

  /** A walk that goes past the first child, to the next edge. */
  lemma GoesOn(packed: seq<byte>, edgeIndex: nat, prevChild: nat, offset: nat, pos: nat, edge: Edge, child: Trie, at: nat,
               left: nat)
    requires prevChild <= |packed| && DecodeEdge(packed, edgeIndex, prevChild, offset) == Ok(edge)
    requires edge.child < |packed| && Decode(packed, edge.child) == Ok(child) && pos == left + child.count
    requires !edge.last && at == edge.textAt + edge.size
    ensures WalkEdges(packed, edgeIndex, prevChild, offset, pos) == WalkEdges(packed, edgeIndex + 1, edge.child, at, left)
  {
    WalkAtEdge(packed, edgeIndex, prevChild, offset, pos, edge, child.count);
  }

  /** A walk that goes past the last child. */
  lemma GoesOut(packed: seq<byte>, edgeIndex: nat, prevChild: nat, offset: nat, pos: nat, edge: Edge, child: Trie)
    requires prevChild <= |packed| && DecodeEdge(packed, edgeIndex, prevChild, offset) == Ok(edge) && edge.last
    requires edge.child < |packed| && Decode(packed, edge.child) == Ok(child) && pos >= child.count
    ensures Outcome(WalkEdges(packed, edgeIndex, prevChild, offset, pos)) == Absent
  {
    WalkAtEdge(packed, edgeIndex, prevChild, offset, pos, edge, child.count);
  }

  /** Without an edge there is no child and no word. */
  lemma NoEdge(packed: seq<byte>, edgeIndex: nat, prevChild: nat, offset: nat, pos: nat, ks: Kids)
    requires prevChild <= |packed| && DecodeEdge(packed, edgeIndex, prevChild, offset).Err?
    requires DecodeKids(packed, edgeIndex, prevChild, offset) == Ok(ks)
    ensures ks == NoKids && Outcome(WalkEdges(packed, edgeIndex, prevChild, offset, pos)) == Absent
  {
  }

  /** The children at an edge are decoded: the first with its count, and the rest. */
  ghost predicate AtEdge(packed: seq<byte>, edgeIndex: nat, prevChild: nat, offset: nat, edge: Edge, ks: Kids) {
    && prevChild <= |packed| && DecodeEdge(packed, edgeIndex, prevChild, offset) == Ok(edge)
    && DecodeKids(packed, edgeIndex, prevChild, offset) == Ok(ks) && CountedKids(ks)
    && ks.Kid? && edge.child < |packed| && Decode(packed, edge.child) == Ok(ks.child)
  }

  lemma {:induction false} FindsInFirst(
      packed: seq<byte>, edgeIndex: nat, prevChild: nat, offset: nat, pos: nat, edge: Edge, ks: Kids)
    requires AtEdge(packed, edgeIndex, prevChild, offset, edge, ks) && pos < ks.child.count
    ensures Outcome(WalkEdges(packed, edgeIndex, prevChild, offset, pos)) == Expected(KidWords(ks), pos)
    decreases |packed| - prevChild, 1, |packed| - offset, 0
  {
    var o := Expected(Words(ks.child), pos);
    CountIsWordCount(ks.child);
    WalkFindsWord(packed, edge.child, pos, ks.child);
    TurnsIn(packed, edgeIndex, prevChild, offset, pos, edge, ks, o);
    FindsHere(ks, pos, o);
  }

  lemma {:induction false} FindsInRest(
      packed: seq<byte>, edgeIndex: nat, prevChild: nat, offset: nat, pos: nat, edge: Edge, ks: Kids, at: nat, left: nat)
    requires AtEdge(packed, edgeIndex, prevChild, offset, edge, ks) && pos == left + ks.child.count
    requires !edge.last && at == edge.textAt + edge.size
    requires DecodeKids(packed, edgeIndex + 1, edge.child, at) == Ok(ks.rest)
    ensures Outcome(WalkEdges(packed, edgeIndex, prevChild, offset, pos)) == Expected(KidWords(ks), pos)
    decreases |packed| - prevChild, 1, |packed| - offset, 0
  {
    CountIsWordCount(ks.child);
    GoesOn(packed, edgeIndex, prevChild, offset, pos, edge, ks.child, at, left);
    WalkEdgesFindsWord(packed, edgeIndex + 1, edge.child, at, left, ks.rest);
    FindsThere(ks, pos, ks.child.count, Expected(KidWords(ks.rest), left));
  }

  lemma {:induction false} WalkEdgesFindsWord(
      packed: seq<byte>, edgeIndex: nat, prevChild: nat, offset: nat, pos: nat, ks: Kids)
    requires prevChild <= |packed|
    requires DecodeKids(packed, edgeIndex, prevChild, offset) == Ok(ks) && CountedKids(ks)
    ensures Outcome(WalkEdges(packed, edgeIndex, prevChild, offset, pos)) == Expected(KidWords(ks), pos)
    decreases |packed| - prevChild, 1, |packed| - offset, 1
  {
    var first := DecodeEdge(packed, edgeIndex, prevChild, offset);
    if first.Err? {
      NoEdge(packed, edgeIndex, prevChild, offset, pos, ks);
      FindsNoMore(pos);
    } else {
      var edge, count := first.value, ks.child.count;
      KidsAtEdge(packed, edgeIndex, prevChild, offset, edge, ks);
      if pos < count {
        FindsInFirst(packed, edgeIndex, prevChild, offset, pos, edge, ks);
      } else if edge.last {
        CountIsWordCount(ks.child);
        GoesOut(packed, edgeIndex, prevChild, offset, pos, edge, ks.child);
        FindsNoMore(pos - count);
        FindsThere(ks, pos, count, Absent);
      } else {
        FindsInRest(packed, edgeIndex, prevChild, offset, pos, edge, ks, edge.textAt + edge.size, pos - count);
      }
    }
  }

  // ------------------------------------------------------- distinct positions

  /** At every node, labels are non-empty and start with different bytes. */
  predicate Deterministic(t: Trie) {
    DeterministicKids(t.kids)
  }

  predicate DeterministicKids(ks: Kids) {
    ks.Kid? ==>
      ks.text != [] && ks.text[0] !in FirstBytes(ks.rest) && Deterministic(ks.child) && DeterministicKids(ks.rest)
  }

  function FirstBytes(ks: Kids): set<byte> {
    if ks.NoKids? then {} else (if ks.text == [] then {} else {ks.text[0]}) + FirstBytes(ks.rest)
  }

  ghost predicate Distinct<T>(s: seq<T>) {
    forall i, j :: 0 <= i < j < |s| ==> s[i] != s[j]
  }

  lemma {:induction false} WordsDistinct(t: Trie)
    requires Deterministic(t)
    ensures Distinct(Words(t))
  {
    KidWordsDistinct(t.kids);
  }

  lemma {:induction false} KidWordsDistinct(ks: Kids)
    requires DeterministicKids(ks)
    ensures Distinct(KidWords(ks))
    ensures forall i :: 0 <= i < |KidWords(ks)| ==> KidWords(ks)[i] != [] && KidWords(ks)[i][0] in FirstBytes(ks)
  {
    if ks.Kid? {
      WordsDistinct(ks.child);
      KidWordsDistinct(ks.rest);
      var left, words := Behind(ks.text, Words(ks.child)), Words(ks.child);
      forall i, j | 0 <= i < j < |left|
        ensures left[i] != left[j]
      {
        assert left[i][|ks.text|..] == words[i] && left[j][|ks.text|..] == words[j];
      }
    }
  }

  // ------------------------------------------------ aliases, named sequences

  /** The part of the header the collectors read; the arrays hold plain numbers. */
  datatype Header = Header(packed: seq<byte>, index1: seq<nat>, index2: seq<nat>, shift: nat, notFound: nat)

  function PosForCodepoint(db: Header, codepoint: nat): Result<nat, Error> {
    var block := ShiftRight(codepoint, db.shift);
    if block >= |db.index1| then Err(IndexError)
    else
      var at := ShiftLeft(db.index1[block], db.shift) + LowBits(codepoint, db.shift);
      if at < |db.index2| then Ok(db.index2[at]) else Err(IndexError)
  }

  /** Pairs (block, low bits) address distinct cells: the two-level index is one table. */
  lemma {:induction false} BlockAddress(codepoint: nat, shift: nat)
    ensures ShiftLeft(ShiftRight(codepoint, shift), shift) + LowBits(codepoint, shift) == codepoint
    ensures LowBits(codepoint, shift) < Pow2(shift)
  {
    if shift > 0 {
      BlockAddress(codepoint / 2, shift - 1);
    }
  }

  /** Block `n` of a list cut into blocks of a size. */
  function Block(s: seq<nat>, n: nat, size: nat): seq<nat> {
    var at := n * size;
    if at + size <= |s| then s[at..at + size] else []
  }

  /** The two-level index of a table of positions: each block of the table is
      the block of the second list that the first one names. */
  ghost predicate IndexOf(db: Header, table: seq<nat>) {
    var size := Pow2(db.shift);
    && |table| == |db.index1| * size
    && forall n :: 0 <= n < |db.index1| ==> |Block(db.index2, db.index1[n], size)| == size
                                            && Block(db.index2, db.index1[n], size) == Block(table, n, size)
  }

  lemma InBlock(s: seq<nat>, n: nat, size: nat, low: nat)
    requires |Block(s, n, size)| == size && low < size
    ensures n * size + low < |s| && s[n * size + low] == Block(s, n, size)[low]
  {
  }

  lemma BlockInside(codepoint: nat, size: nat, blocks: nat)
    requires size > 0
    ensures codepoint == codepoint / size * size + codepoint % size
    ensures codepoint / size < blocks <==> codepoint < blocks * size
  {
    var q, r := codepoint / size, codepoint % size;
    if q < blocks {
      MoreBlocks(q + 1, blocks, size);
    } else {
      MoreBlocks(blocks, q, size);
    }
  }

  lemma MoreBlocks(a: nat, b: nat, size: nat)
    requires a <= b
    ensures a * size <= b * size
  {
  }

  /** Such an index gives every code point its position, and nothing beyond the table. */
  lemma IndexGivesPositions(db: Header, table: seq<nat>, codepoint: nat)
    requires IndexOf(db, table)
    ensures PosForCodepoint(db, codepoint) == if codepoint < |table| then Ok(table[codepoint]) else Err(IndexError)
  {
    var size := Pow2(db.shift);
    var block, low := codepoint / size, codepoint % size;
    Shifts(codepoint, db.shift);
    BlockInside(codepoint, size, |db.index1|);
    if block < |db.index1| {
      Shifts(db.index1[block], db.shift);
      InBlock(db.index2, db.index1[block], size, low);
      InBlock(table, block, size, low);
    }
  }

  function NameForCodepoint(db: Header, codepoint: nat): Result<string, Error> {
    var pos :- PosForCodepoint(db, codepoint);
    if pos == db.notFound then Err(MissingPosition) else NameAt(db.packed, pos)
  }

  /** The table after the first `k` pseudo code points. */
  function Collected<V>(db: Header, start: nat, values: seq<V>, k: nat): Result<map<string, V>, Error>
    requires k <= |values|
  {
    if k == 0 then Ok(map[])
    else
      var m :- Collected(db, start, values, k - 1);
      var name :- NameForCodepoint(db, start + k - 1);
      Ok(m[name := values[k - 1]])
  }

  lemma {:induction false} CollectedFailsEarly<V>(db: Header, start: nat, values: seq<V>, k: nat, n: nat)
    requires k <= n <= |values| && Collected(db, start, values, k).Err?
    ensures Collected(db, start, values, n) == Collected(db, start, values, k)
    decreases n - k
  {
    if k < n {
      CollectedFailsEarly(db, start, values, k + 1, n);
    }
  }

  /** `collect_aliases` and `collect_named_sequences`, which differ only in the value type. */
  method Collect<V>(db: Header, start: nat, end: nat, values: seq<V>) returns (r: Result<map<string, V>, Error>)
    ensures end - start != |values| ==> r == Err(LengthMismatch)
    ensures end - start == |values| ==> r == Collected(db, start, values, |values|)
  {
    if end - start != |values| {
      return Err(LengthMismatch);
    }
    var table: map<string, V> := map[];
    var codepoint := start;
    while codepoint < end
      invariant start <= codepoint <= end
      invariant Collected(db, start, values, codepoint - start) == Ok(table)
    {
      var k := codepoint - start + 1;
      if Collected(db, start, values, k).Err? {
        CollectedFailsEarly(db, start, values, k, |values|);
      }
      var pos :- PosForCodepoint(db, codepoint);
      if pos == db.notFound {
        return Err(MissingPosition);
      }
      var name :- InverseLookupName(db.packed, pos);
      table := table[name := values[codepoint - start]];
      codepoint := codepoint + 1;
    }
    return Ok(table);
  }

  /** Every pseudo code point from `start` on has a position inside the trie. */
  ghost predicate Placed(db: Header, start: nat, positions: seq<nat>, t: Trie) {
    forall k :: 0 <= k < |positions| ==>
      PosForCodepoint(db, start + k) == Ok(positions[k]) && positions[k] != db.notFound && positions[k] < |Words(t)|
  }

  ghost predicate AsciiWords(t: Trie) {
    forall i :: 0 <= i < |Words(t)| ==> Ascii(Words(t)[i]).Ok?
  }

  ghost function WordAt(t: Trie, pos: nat): string
    requires pos < |Words(t)| && AsciiWords(t)
  {
    Ascii(Words(t)[pos]).value
  }

  lemma WordAtInjective(t: Trie, p: nat, q: nat)
    requires p < |Words(t)| && q < |Words(t)| && AsciiWords(t) && Deterministic(t)
    ensures WordAt(t, p) == WordAt(t, q) ==> p == q
  {
    WordsDistinct(t);
    if WordAt(t, p) == WordAt(t, q) {
      assert Words(t)[p] == Words(t)[q] by {
        assert forall i :: 0 <= i < |Words(t)[p]| ==> WordAt(t, p)[i] as int == Words(t)[p][i];
        assert forall i :: 0 <= i < |Words(t)[q]| ==> WordAt(t, q)[i] as int == Words(t)[q][i];
      }
    }
  }

  /** The table that maps each name to its last value. */
  function LastWins<K, V>(names: seq<K>, values: seq<V>): (m: map<K, V>)
    requires |names| <= |values|
  {
    if names == [] then map[]
    else LastWins(names[..|names| - 1], values)[names[|names| - 1] := values[|names| - 1]]
  }

  /** `s[k]` does not occur again. */
  ghost predicate LastAt<T>(s: seq<T>, k: nat)
    requires k < |s|
  {
    forall j :: k < j < |s| ==> s[j] != s[k]
  }

  lemma {:induction false} LastWinsKeys<K, V>(names: seq<K>, values: seq<V>)
    requires |names| <= |values|
    ensures forall name :: name in LastWins(names, values) <==> name in names
  {
    if names != [] {
      var before := names[..|names| - 1];
      LastWinsKeys(before, values);
      assert names == before + [names[|names| - 1]];
    }
  }

  lemma {:induction false} LastWinsAt<K, V>(names: seq<K>, values: seq<V>, k: nat)
    requires k < |names| <= |values| && LastAt(names, k)
    ensures names[k] in LastWins(names, values) && LastWins(names, values)[names[k]] == values[k]
  {
    var n := |names| - 1;
    if k < n {
      var before := names[..n];
      assert before[k] == names[k] && LastAt(before, k) && names[n] != names[k];
      LastWinsAt(before, values, k);
    }
  }

  lemma {:induction false} LastWinsSize<K, V>(names: seq<K>, values: seq<V>)
    requires |names| <= |values|
    ensures |LastWins(names, values)| <= |names|
    ensures |LastWins(names, values)| == |names| <==> Distinct(names)
  {
    if names != [] {
      var before, name := names[..|names| - 1], names[|names| - 1];
      LastWinsSize(before, values);
      LastWinsKeys(before, values);
      assert LastWins(names, values).Keys == LastWins(before, values).Keys + {name};
      assert Distinct(names) <==> Distinct(before) && name !in before;
    }
  }

  lemma {:induction false} CollectedIsLastWins<V>(db: Header, start: nat, values: seq<V>, names: seq<string>)
    requires |names| <= |values|
    requires forall k :: 0 <= k < |names| ==> NameForCodepoint(db, start + k) == Ok(names[k])
    ensures Collected(db, start, values, |names|) == Ok(LastWins(names, values))
  {
    if names != [] {
      var n := |names| - 1;
      CollectedIsLastWins(db, start, values, names[..n]);
      assert NameForCodepoint(db, start + n) == Ok(names[n]);
    }
  }

  /** The names of the pseudo code points: equal exactly where positions are. */
  lemma PlacedNames(db: Header, start: nat, positions: seq<nat>, t: Trie) returns (names: seq<string>)
    requires Decode(db.packed, 0) == Ok(t) && Counted(t) && Deterministic(t) && AsciiWords(t)
    requires Placed(db, start, positions, t)
    ensures |names| == |positions|
    ensures forall k :: 0 <= k < |names| ==>
              names[k] == WordAt(t, positions[k]) && NameForCodepoint(db, start + k) == Ok(names[k])
    ensures forall j, k :: 0 <= j < |names| && 0 <= k < |names| ==> (names[j] == names[k] <==> positions[j] == positions[k])
  {
    names := seq(|positions|, k requires 0 <= k < |positions| => WordAt(t, positions[k]));
    forall k | 0 <= k < |names|
      ensures NameForCodepoint(db, start + k) == Ok(names[k])
    {
      WalkFindsWord(db.packed, 0, positions[k], t);
    }
    forall j, k | 0 <= j < |names| && 0 <= k < |names|
      ensures names[j] == names[k] <==> positions[j] == positions[k]
    {
      WordAtInjective(t, positions[j], positions[k]);
    }
  }

  /** On a well-counted, deterministic graph the table maps the word at each
      position to the value of the last pseudo code point placed there, and
      every code point gets an entry of its own exactly when positions are distinct. */
  lemma CollectKeepsAll<V>(db: Header, start: nat, values: seq<V>, positions: seq<nat>, t: Trie) returns (names: seq<string>)
    requires |positions| == |values|
    requires Decode(db.packed, 0) == Ok(t) && Counted(t) && Deterministic(t) && AsciiWords(t)
    requires Placed(db, start, positions, t)
    ensures |names| == |positions| && forall k :: 0 <= k < |names| ==> names[k] == WordAt(t, positions[k])
    ensures Collected(db, start, values, |values|).Ok?
    ensures var m := Collected(db, start, values, |values|).value;
      && (forall name :: name in m <==> name in names)
      && (forall k :: 0 <= k < |names| && LastAt(positions, k) ==> m[names[k]] == values[k])
      && (|m| == |values| <==> Distinct(positions))
  {
    names := PlacedNames(db, start, positions, t);
    CollectedIsLastWins(db, start, values, names);
    LastWinsByPosition(names, values, positions);
  }

  /** Names that are equal exactly where positions are. */
  lemma LastWinsByPosition<K, V>(names: seq<K>, values: seq<V>, positions: seq<nat>)
    requires |names| == |values| == |positions|
    requires forall j, k :: 0 <= j < |names| && 0 <= k < |names| ==> (names[j] == names[k] <==> positions[j] == positions[k])
    ensures forall name :: name in LastWins(names, values) <==> name in names
    ensures forall k :: 0 <= k < |names| && LastAt(positions, k) ==> LastWins(names, values)[names[k]] == values[k]
    ensures |LastWins(names, values)| == |values| <==> Distinct(positions)
  {
    LastWinsKeys(names, values);
    LastWinsSize(names, values);
    assert Distinct(names) <==> Distinct(positions);
    forall k | 0 <= k < |names| && LastAt(positions, k)
      ensures LastWins(names, values)[names[k]] == values[k]
    {
      assert LastAt(names, k);
      LastWinsAt(names, values, k);
    }
  }
}
