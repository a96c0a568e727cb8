/** Decoding a bit sequence with a code tree: the state machine of
    translate, and the encoder it inverts (walking each symbol to its leaf
    route, as read off the saved records). */
module Decoder {
  import opened HuffmanTree
  import opened Codec

  datatype Option<T> = None | Some(value: T)

  /** One bit from the input stream. */
  type Bit = b: int | 0 <= b <= 1

  /** The state machine of translate, from cursor `cur` with `bits` left:
      at a leaf with bits left, write its symbol and restart at the root;
      at any other node, take one bit and move to the zero or one child;
      with no bits left, write the symbol at the cursor once. The cursor
      never leaves a full tree, and a root that is itself a leaf cannot be
      fed bits (the machine would never take one). The result has at least
      the final symbol, and at most one symbol per bit besides it. */
  function Run(root: HuffmanNode, cur: HuffmanNode, bits: seq<Bit>): (out: seq<int>)
    requires Full(root) && Full(cur)
    requires bits != [] ==> !IsLeaf(root)
    ensures 1 <= |out| <= |bits| + (if bits != [] && !IsLeaf(cur) then 0 else 1)
    decreases 2 * |bits| + (if IsLeaf(cur) then 1 else 0)
  {
    if bits == [] then [cur.data]
    else if IsLeaf(cur) then [cur.data] + Run(root, root, bits)
    else if bits[0] == 0 then Run(root, cur.zeroLeft, bits[1..])
    else Run(root, cur.oneRight, bits[1..])
  }

  /** Meeting a leaf with bits left: its symbol is written and the cursor
      restarts at the root, after whatever was written before. */
  lemma RunLeafStep(written: seq<int>, root: HuffmanNode, cur: HuffmanNode, bits: seq<Bit>)
    requires Full(root) && !IsLeaf(root) && IsLeaf(cur) && bits != []
    ensures (written + [cur.data]) + Run(root, root, bits) == written + Run(root, cur, bits)
  {
    assert Run(root, cur, bits) == [cur.data] + Run(root, root, bits);
  }

  /** Taking a bit at a branch: the cursor moves to the child it names. */
  lemma RunBitStep(root: HuffmanNode, cur: HuffmanNode, bits: seq<Bit>, i: nat)
    requires Full(root) && !IsLeaf(root) && Full(cur) && !IsLeaf(cur) && i < |bits|
    ensures Run(root, cur, bits[i..]) ==
            Run(root, if bits[i] == 0 then cur.zeroLeft else cur.oneRight, bits[i + 1..])
  {
    assert bits[i..][1..] == bits[i + 1..];
  }

  /** The byte that writing a symbol to an output stream puts out: its low
      eight bits, the residue of the symbol modulo 256. A symbol from 0 to
      255 is written as itself. */
  function WrittenByte(data: int): (b: int)
    ensures 0 <= b < 256 && (data - b) % 256 == 0
    ensures 0 <= data < 256 ==> b == data
  {
    data % 256
  }

  /** The bytes written for a sequence of symbols, one per symbol. */
  function Written(symbols: seq<int>): (bytes: seq<int>)
    ensures |bytes| == |symbols|
  {
    if symbols == [] then []
    else Written(symbols[..|symbols| - 1]) + [WrittenByte(symbols[|symbols| - 1])]
  }

  /** Writing one more symbol appends its byte. */
  lemma WrittenAppend(symbols: seq<int>, data: int)
    ensures Written(symbols + [data]) == Written(symbols) + [WrittenByte(data)]
  {
    assert (symbols + [data])[..|symbols|] == symbols;
  }

  /** Each symbol is written as its own byte, in its own place. */
  lemma {:induction false} WrittenAt(symbols: seq<int>)
    ensures forall i :: 0 <= i < |symbols| ==> Written(symbols)[i] == WrittenByte(symbols[i])
  {
    if symbols != [] {
      var n := |symbols| - 1;
      var front := symbols[..n];
      WrittenAt(front);
      forall i | 0 <= i < |symbols| ensures Written(symbols)[i] == WrittenByte(symbols[i]) {
        if i < n {
          assert symbols[i] == front[i];
        }
      }
    }
  }

  /** Symbols that are all bytes already are written unchanged. */
  lemma WrittenBytes(symbols: seq<int>)
    requires forall i :: 0 <= i < |symbols| ==> 0 <= symbols[i] < 256
    ensures Written(symbols) == symbols
  {
    WrittenAt(symbols);
  }

  /** A route as the bits that spell it: '0' is bit 0, anything else bit 1. */
  function ToBits(route: string): (bits: seq<Bit>)
    ensures |bits| == |route|
    ensures forall i :: 0 <= i < |route| ==> (bits[i] == 0 <==> route[i] == '0')
  {
    seq(|route|, i requires 0 <= i < |route| => if route[i] == '0' then 0 else 1)
  }

  /** The route saved for `symbol`: that of the first record that holds it. */
  function CodeOf(records: seq<Record>, symbol: int): (route: Option<string>)
    ensures route.Some? <==> symbol in Symbols(records)
    ensures route.Some? ==>
              exists k :: 0 <= k < |records| && records[k] == Record(symbol, route.value) &&
                          forall j :: 0 <= j < k ==> records[j].data != symbol
  {
    if records == [] then None
    else if records[0].data == symbol then
      assert Symbols(records)[0] == symbol;
      Some(records[0].path)
    else
      var rest := CodeOf(records[1..], symbol);
      assert Symbols(records) == [records[0].data] + Symbols(records[1..]);
      if rest.Some? then
        var k :| 0 <= k < |records[1..]| && records[1..][k] == Record(symbol, rest.value) &&
                 forall j :: 0 <= j < k ==> records[1..][j].data != symbol;
        assert records[k + 1] == records[1..][k];
        assert forall j :: 1 <= j < k + 1 ==> records[j] == records[1..][j - 1];
        rest
      else rest
  }

  /** Encoding a message: the concatenated routes of its symbols, or None
      when some symbol has no record. */
  function Encode(records: seq<Record>, message: seq<int>): (bits: Option<seq<Bit>>)
    ensures bits.Some? <==> forall j :: 0 <= j < |message| ==> message[j] in Symbols(records)
  {
    if message == [] then Some([])
    else
      match CodeOf(records, message[0])
      case None => None
      case Some(route) =>
        match Encode(records, message[1..])
        case None =>
          assert message[1..] != [] && forall j :: 0 <= j < |message[1..]| ==> message[1..][j] == message[j + 1];
          None
        case Some(rest) =>
          assert forall j :: 1 <= j < |message| ==> message[j] == message[1..][j - 1];
          Some(ToBits(route) + rest)
  }

  /** Feeding the bits of a route that leads from `cur` to a leaf takes the
      cursor to that leaf, whatever bits follow. */
  lemma {:induction false} RunRoute(root: HuffmanNode, cur: HuffmanNode, route: string, rest: seq<Bit>)
    requires Full(root) && !IsLeaf(root) && Full(cur)
    requires IsLeaf(Follow(cur, route))
    ensures Run(root, cur, ToBits(route) + rest) == Run(root, Follow(cur, route), rest)
    decreases |route|
  {
    if route != [] {
      if IsLeaf(cur) {
        FollowNull(route[1..]);
        assert false;
      }
      var bits := ToBits(route) + rest;
      assert bits[1..] == ToBits(route[1..]) + rest;
      var child := if route[0] == '0' then cur.zeroLeft else cur.oneRight;
      RunRoute(root, child, route[1..], rest);
    } else {
      assert ToBits(route) + rest == rest;
    }
  }

  /** The route saved for a symbol of a full tree whose root is not a leaf
      is non-empty and leads to the leaf holding that symbol. */
  lemma CodeLeadsToLeaf(t: HuffmanNode, symbol: int) returns (route: string)
    requires Full(t) && !IsLeaf(t)
    requires CodeOf(Save(t), symbol).Some?
    ensures route == CodeOf(Save(t), symbol).value && route != []
    ensures IsLeaf(Follow(t, route)) && Follow(t, route).data == symbol
  {
    var records := Save(t);
    route := CodeOf(records, symbol).value;
    var k :| 0 <= k < |records| && records[k] == Record(symbol, route);
    SaveRoutes(t, "");
    SavePrefixFree(t);
    assert route[0..] == route;
  }

  /** Decoding inverts encoding: for a full tree whose root is not a leaf,
      translating the encoding of a non-empty message gives back the
      message, its last symbol being the one written after the loop. */
  lemma {:induction false} DecodeEncoded(t: HuffmanNode, message: seq<int>, bits: seq<Bit>)
    requires Full(t) && !IsLeaf(t)
    requires message != [] && Encode(Save(t), message) == Some(bits)
    ensures Run(t, t, bits) == message
    decreases |message|
  {
    var records := Save(t);
    var route := CodeLeadsToLeaf(t, message[0]);
    var rest := Encode(records, message[1..]).value;
    assert bits == ToBits(route) + rest;
    RunRoute(t, t, route, rest);
    if message[1..] == [] {
      assert rest == [];
    } else {
      DecodeEncoded(t, message[1..], rest);
      assert rest != [] by {
        var next := CodeLeadsToLeaf(t, message[1]);
        assert message[1..][0] == message[1];
        assert rest[..|next|] == ToBits(next);
      }
      assert message == [message[0]] + message[1..];
    }
  }
}
