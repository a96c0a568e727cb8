/** The HuffmanCode class: a code tree held in its one field, built from
    frequencies or loaded from saved records, which can save itself and
    translate bits back to symbols. */
module Huffman {
  import opened HuffmanTree
  import opened Builder
  import opened Codec
  import opened Decoder

  class HuffmanCode {
    /** The root of the current tree; `Null` when nothing has been loaded. */
    var overallRoot: HuffmanNode

    /** HuffmanCode(int[] frequencies). The caller must supply at least one
        positive frequency: otherwise the final removal from the empty queue
        throws, which BuildTree reports as a Failure. */
    constructor FromFrequencies(frequencies: seq<int>)
      requires PositiveSymbols(frequencies) != multiset{}
      ensures WellWeighted(overallRoot) && Full(overallRoot)
      ensures LeafSymbols(overallRoot) == PositiveSymbols(frequencies)
      ensures overallRoot.frequency == PositiveTotal(frequencies)
      ensures LeafWeights(overallRoot, frequencies)
      ensures |PositiveSymbols(frequencies)| >= 2 ==>
                exists pair :: Contains(overallRoot, pair) && LightestPair(pair, frequencies)
    {
      var result := BuildTree(frequencies);
      overallRoot := result.value;
      WellWeightedIsFull(result.value);
    }

    /** HuffmanCode(Scanner input): start from no tree and apply readHelper
        to each record in turn. */
    constructor FromRecords(records: seq<Record>)
      ensures overallRoot == Load(records)
    {
      var root := Null;
      var i := 0;
      while i < |records|
        invariant 0 <= i <= |records|
        invariant LoadFrom(root, records[i..]) == Load(records)
      {
        assert records[i..][0] == records[i] && records[i..][1..] == records[i + 1..];
        root := ReadHelper(records[i].data, records[i].path, root);
        i := i + 1;
      }
      overallRoot := root;
    }

    /** save(output): the records of the pre-order walk from the root. */
    method Save() returns (records: seq<Record>)
      ensures records == Codec.Save(overallRoot)
      ensures |records| == |LeafSymbols(overallRoot)|
    {
      records := SaveFrom(overallRoot, "");
      SaveSymbols(overallRoot, "");
    }

    /** translate(input, output): run the cursor over the bits, writing the
        byte of the symbol at each leaf met while bits remain, and once more
        after the last bit. Requires a full tree, and bits only for a tree
        whose root is not a leaf (otherwise the loop never ends). */
    method Translate(bits: seq<Bit>) returns (output: seq<int>)
      requires Full(overallRoot)
      requires bits != [] ==> !IsLeaf(overallRoot)
      ensures output == Written(Run(overallRoot, overallRoot, bits))
      ensures bits == [] ==> output == [WrittenByte(overallRoot.data)]
    {
      var current := overallRoot;
      var i := 0;
      output := [];
      ghost var symbols := [];
      while i < |bits|
        invariant 0 <= i <= |bits|
        invariant Full(current)
        invariant output == Written(symbols)
        invariant symbols + Run(overallRoot, current, bits[i..]) == Run(overallRoot, overallRoot, bits)
        decreases 2 * (|bits| - i) + (if IsLeaf(current) then 1 else 0)
      {
        if current.oneRight.Null? && current.zeroLeft.Null? {
          WrittenAppend(symbols, current.data);
          RunLeafStep(symbols, overallRoot, current, bits[i..]);
          symbols := symbols + [current.data];
          output := output + [WrittenByte(current.data)];
          current := overallRoot;
        } else {
          RunBitStep(overallRoot, current, bits, i);
          if bits[i] == 0 {
            current := current.zeroLeft;
          } else {
            current := current.oneRight;
          }
          i := i + 1;
        }
      }
      WrittenAppend(symbols, current.data);
      output := output + [WrittenByte(current.data)];
    }
  }

  /** With a single positive frequency, at index i, the built tree is one
      leaf for i, and save writes one record for it with the empty route. */
  lemma SingleSymbolCode(frequencies: seq<int>, i: nat, t: HuffmanNode)
    requires i < |frequencies| && frequencies[i] > 0
    requires forall j :: 0 <= j < |frequencies| && j != i ==> frequencies[j] <= 0
    requires WellWeighted(t) && LeafSymbols(t) == PositiveSymbols(frequencies)
    ensures IsLeaf(t) && t.data == i
    ensures Codec.Save(t) == [Record(i, "")]
  {
    SinglePositive(frequencies, i);
    WellWeightedIsFull(t);
    SingleSymbolIsLeaf(t);
    SavePrefixFree(t);
  }

  /** With exactly two positive frequencies, and no tie, the built tree is
      a branch over two leaves: the lighter symbol is saved first with route
      "0", and the heavier one with route "1". */
  lemma TwoSymbolCode(frequencies: seq<int>, a: nat, b: nat, t: HuffmanNode)
    requires a < |frequencies| && b < |frequencies|
    requires 0 < frequencies[a] < frequencies[b]
    requires forall j :: 0 <= j < |frequencies| && j != a && j != b ==> frequencies[j] <= 0
    requires WellWeighted(t) && LeafWeights(t, frequencies)
    requires LeafSymbols(t) == PositiveSymbols(frequencies)
    ensures Codec.Save(t) == [Record(a, "0"), Record(b, "1")]
  {
    TwoPositive(frequencies, a, b);
    WellWeightedIsFull(t);
    assert !IsLeaf(t);
    var z, o := t.zeroLeft, t.oneRight;
    LeafSymbolsNonEmpty(z);
    LeafSymbolsNonEmpty(o);
    SingleSymbolIsLeaf(z);
    SingleSymbolIsLeaf(o);
    assert LeafSymbols(z) == multiset{z.data} && LeafSymbols(o) == multiset{o.data};
    PairOf(z.data, o.data, a, b);
    assert z.data == a;
    assert o.data == b;
    assert Codec.Save(t) == SaveFrom(z, "" + "0") + SaveFrom(o, "" + "1");
    assert "" + "0" == "0" && "" + "1" == "1";
    assert SaveFrom(z, "0") == [Record(a, "0")];
    assert SaveFrom(o, "1") == [Record(b, "1")];
  }

  /** Two symbols making up the pair {a, b} are a and b in one order or the
      other. */
  lemma PairOf(x: int, y: int, a: int, b: int)
    requires multiset{x} + multiset{y} == multiset{a, b}
    ensures (x == a && y == b) || (x == b && y == a)
  {
    assert x in multiset{a, b} && y in multiset{a, b};
    if x == a {
      assert multiset{y} == multiset{a, b} - multiset{a};
    } else {
      assert multiset{y} == multiset{a, b} - multiset{b};
    }
  }

  /** The symbols saved from a built tree are indices of the frequency
      table. */
  lemma SavedSymbolsInTable(frequencies: seq<int>, t: HuffmanNode, symbol: int)
    requires LeafSymbols(t) == PositiveSymbols(frequencies)
    requires symbol in Symbols(Codec.Save(t))
    ensures 0 <= symbol < |frequencies|
  {
    SaveSymbols(t, "");
    assert symbol in multiset(Symbols(Codec.Save(t)));
    PositiveSymbolsCount(frequencies, symbol);
  }

  /** A message made of the saved symbols of a tree built from a table of
      at most 256 entries is written byte for byte as itself. */
  lemma WrittenMessage(frequencies: seq<int>, t: HuffmanNode, message: seq<int>)
    requires LeafSymbols(t) == PositiveSymbols(frequencies) && |frequencies| <= 256
    requires forall j :: 0 <= j < |message| ==> message[j] in Symbols(Codec.Save(t))
    ensures Written(message) == message
  {
    forall j | 0 <= j < |message| ensures 0 <= message[j] < 256 {
      SavedSymbolsInTable(frequencies, t, message[j]);
    }
    WrittenBytes(message);
  }

  /** With two or more positive frequencies, a built tree decodes the
      encoding of any non-empty message made of its symbols, and so does
      the tree loaded back from its saved records. For a table of at most
      256 entries, the bytes written are the message itself. */
  lemma BuiltCodeDecodes(frequencies: seq<int>, t: HuffmanNode, message: seq<int>, bits: seq<Bit>)
    requires WellWeighted(t) && LeafSymbols(t) == PositiveSymbols(frequencies)
    requires |PositiveSymbols(frequencies)| >= 2
    requires message != [] && Encode(Codec.Save(t), message) == Some(bits)
    ensures Full(t) && !IsLeaf(t)
    ensures Full(Load(Codec.Save(t))) && !IsLeaf(Load(Codec.Save(t)))
    ensures Run(t, t, bits) == message
    ensures Run(Load(Codec.Save(t)), Load(Codec.Save(t)), bits) == message
    ensures |frequencies| <= 256 ==> Written(Run(Load(Codec.Save(t)), Load(Codec.Save(t)), bits)) == message
  {
    WellWeightedIsFull(t);
    assert !IsLeaf(t);
    DecodeEncoded(t, message, bits);
    RoundTrip(t);
    StripFull(t);
    SaveStrip(t, "");
    DecodeEncoded(Strip(t), message, bits);
    if |frequencies| <= 256 {
      WrittenMessage(frequencies, t, message);
    }
  }
}
