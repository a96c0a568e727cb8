/** Saving a code tree as (symbol, path) records and loading it back: the
    two save methods, the Scanner constructor and readHelper. The text
    format itself (one line with the symbol, one with the path) is not
    modelled; a record holds the two lines' values. */
module Codec {
  import opened HuffmanTree

  /** One leaf's entry in the saved form: its symbol and its route from the
      root, a string over '0' and '1'. */
  datatype Record = Record(data: int, path: string)

  /** The symbols of a sequence of records, in order. */
  function Symbols(records: seq<Record>): seq<int>
  {
    seq(|records|, k requires 0 <= k < |records| => records[k].data)
  }

  /** The private save(output, root, soFar): a pre-order walk that writes
      each leaf's symbol and route, visiting the zero child before the one
      child and skipping absent children. */
  function SaveFrom(root: HuffmanNode, soFar: string): seq<Record>
  {
    if root.Null? then []
    else if root.oneRight.Null? && root.zeroLeft.Null? then [Record(root.data, soFar)]
    else SaveFrom(root.zeroLeft, soFar + "0") + SaveFrom(root.oneRight, soFar + "1")
  }

  /** Save writes one record per leaf: the symbols it writes are the leaf
      symbols of the tree. */
  lemma {:induction false} SaveSymbols(root: HuffmanNode, soFar: string)
    ensures multiset(Symbols(SaveFrom(root, soFar))) == LeafSymbols(root)
    ensures |SaveFrom(root, soFar)| == |LeafSymbols(root)|
    decreases root
  {
    if root.Node? && !(root.oneRight.Null? && root.zeroLeft.Null?) {
      var zeros := SaveFrom(root.zeroLeft, soFar + "0");
      var ones := SaveFrom(root.oneRight, soFar + "1");
      SaveSymbols(root.zeroLeft, soFar + "0");
      SaveSymbols(root.oneRight, soFar + "1");
      SymbolsAppend(zeros, ones);
    }
  }

  lemma SymbolsAppend(a: seq<Record>, b: seq<Record>)
    ensures Symbols(a + b) == Symbols(a) + Symbols(b)
  {
  }

  /** The public save(output): the walk from the root with the empty route. */
  function Save(root: HuffmanNode): seq<Record>
  {
    SaveFrom(root, "")
  }

  /** Strings over '0' and '1'. */
  predicate IsBinary(s: string)
  {
    forall i :: 0 <= i < |s| ==> s[i] == '0' || s[i] == '1'
  }

  /** `path` starts with `prefix`. */
  predicate Extends(path: string, prefix: string)
  {
    |prefix| <= |path| && path[..|prefix|] == prefix
  }

  lemma SplitAt(path: string, prefix: string)
    requires Extends(path, prefix)
    ensures path == prefix + path[|prefix|..]
  {
    assert path == path[..|prefix|] + path[|prefix|..];
  }

  /** Following `route` from `root` reaches a leaf holding `data`. */
  predicate Reaches(root: HuffmanNode, route: string, data: int)
  {
    IsLeaf(Follow(root, route)) && Follow(root, route).data == data
  }

  /** `a` leaves the walk to the zero side at the first place where it and
      `b` part, and `b` to the one side. */
  predicate Before(a: string, b: string)
    decreases |a|
  {
    |a| > 0 && |b| > 0 &&
    ((a[0] == '0' && b[0] == '1') || (a[0] == b[0] && Before(a[1..], b[1..])))
  }

  lemma {:induction false} BeforeCommonPrefix(p: string, a: string, b: string)
    ensures Before(p + "0" + a, p + "1" + b)
    decreases |p|
  {
    if p != [] {
      assert (p + "0" + a)[1..] == p[1..] + "0" + a;
      assert (p + "1" + b)[1..] == p[1..] + "1" + b;
      BeforeCommonPrefix(p[1..], a, b);
    }
  }

  /** Routes below the zero child of the node at `soFar` come before the
      routes below its one child. */
  lemma SidesBefore(soFar: string, a: string, b: string)
    requires Extends(a, soFar + "0") && Extends(b, soFar + "1")
    ensures Before(a, b)
  {
    SplitAt(a, soFar + "0");
    SplitAt(b, soFar + "1");
    BeforeCommonPrefix(soFar, a[|soFar| + 1..], b[|soFar| + 1..]);
  }

  lemma PrefixTail(a: string, b: string)
    requires |a| > 0 && |b| > 0 && a[0] == b[0]
    ensures (a <= b) == (a[1..] <= b[1..])
  {
    assert a == [a[0]] + a[1..] && b == [b[0]] + b[1..];
  }

  /** Two routes ordered by Before are distinct and neither is a prefix of
      the other. */
  lemma {:induction false} BeforeIsPrefixFree(a: string, b: string)
    requires Before(a, b)
    ensures a != b && !(a <= b) && !(b <= a)
    decreases |a|
  {
    if a[0] == b[0] {
      BeforeIsPrefixFree(a[1..], b[1..]);
      PrefixTail(a, b);
      PrefixTail(b, a);
    }
  }

  /** Every record's route extends `soFar`, and its remainder is a binary
      route from `root` to a leaf holding the record's symbol. */
  predicate LeadToLeaves(root: HuffmanNode, soFar: string, records: seq<Record>)
  {
    forall k :: 0 <= k < |records| ==>
      Extends(records[k].path, soFar) &&
      IsBinary(records[k].path[|soFar|..]) &&
      Reaches(root, records[k].path[|soFar|..], records[k].data)
  }

  /** One step up from a child: a route below the child on side `bit` is a
      route below its parent. */
  lemma RouteStep(root: HuffmanNode, soFar: string, bit: char, path: string, data: int)
    requires root.Node? && (bit == '0' || bit == '1')
    requires Extends(path, soFar + [bit]) && IsBinary(path[|soFar| + 1..])
    requires Reaches(if bit == '0' then root.zeroLeft else root.oneRight, path[|soFar| + 1..], data)
    ensures Extends(path, soFar) && IsBinary(path[|soFar|..])
    ensures Reaches(root, path[|soFar|..], data)
  {
    SplitAt(path, soFar + [bit]);
    var rest := path[|soFar|..];
    assert rest == [bit] + path[|soFar| + 1..];
    assert rest[0] == bit && rest[1..] == path[|soFar| + 1..];
    assert path[..|soFar|] == (soFar + [bit])[..|soFar|];
  }

  /** Each saved record names a leaf: the rest of its route after `soFar`
      leads from the root to a leaf holding its symbol; and when the root
      is not a leaf that rest is non-empty. */
  lemma {:induction false} SaveRoutes(root: HuffmanNode, soFar: string)
    ensures LeadToLeaves(root, soFar, SaveFrom(root, soFar))
    ensures !IsLeaf(root) ==>
              forall k :: 0 <= k < |SaveFrom(root, soFar)| ==> |SaveFrom(root, soFar)[k].path| > |soFar|
    decreases root
  {
    if root.Node? && !(root.oneRight.Null? && root.zeroLeft.Null?) {
      var zeros := SaveFrom(root.zeroLeft, soFar + "0");
      var ones := SaveFrom(root.oneRight, soFar + "1");
      SaveRoutes(root.zeroLeft, soFar + "0");
      SaveRoutes(root.oneRight, soFar + "1");
      var records := zeros + ones;
      forall k | 0 <= k < |records|
        ensures Extends(records[k].path, soFar) && IsBinary(records[k].path[|soFar|..])
        ensures Reaches(root, records[k].path[|soFar|..], records[k].data)
        ensures |records[k].path| > |soFar|
      {
        if k < |zeros| {
          assert records[k] == zeros[k];
          RouteStep(root, soFar, '0', records[k].path, records[k].data);
        } else {
          assert records[k] == ones[k - |zeros|];
          RouteStep(root, soFar, '1', records[k].path, records[k].data);
        }
      }
    } else if IsLeaf(root) {
      assert SaveFrom(root, soFar)[0].path[|soFar|..] == [];
    }
  }

  /** Each record's route turns to the zero side where it parts from the
      route of any later record. */
  predicate InPreOrder(records: seq<Record>)
  {
    forall i, j :: 0 <= i < j < |records| ==> Before(records[i].path, records[j].path)
  }

  /** No record's route is a prefix of (or equal to) another record's. */
  predicate PrefixFree(records: seq<Record>)
  {
    forall i, j :: 0 <= i < |records| && 0 <= j < |records| && i != j ==>
      !(records[i].path <= records[j].path)
  }

  /** Save writes its records in pre-order: for any two records, the
      earlier one's route turns to the zero side where the two routes part. */
  lemma {:induction false} SaveOrdered(root: HuffmanNode, soFar: string)
    ensures InPreOrder(SaveFrom(root, soFar))
    decreases root
  {
    if root.Node? && !(root.oneRight.Null? && root.zeroLeft.Null?) {
      var zeros := SaveFrom(root.zeroLeft, soFar + "0");
      var ones := SaveFrom(root.oneRight, soFar + "1");
      SaveOrdered(root.zeroLeft, soFar + "0");
      SaveOrdered(root.oneRight, soFar + "1");
      SaveRoutes(root.zeroLeft, soFar + "0");
      SaveRoutes(root.oneRight, soFar + "1");
      var records := zeros + ones;
      forall i, j | 0 <= i < j < |records|
        ensures Before(records[i].path, records[j].path)
      {
        if j < |zeros| {
          assert records[i] == zeros[i] && records[j] == zeros[j];
        } else if i >= |zeros| {
          assert records[i] == ones[i - |zeros|] && records[j] == ones[j - |zeros|];
        } else {
          assert records[i] == zeros[i] && records[j] == ones[j - |zeros|];
          SidesBefore(soFar, records[i].path, records[j].path);
        }
      }
    }
  }

  /** The routes save writes are pairwise distinct and prefix-free, binary,
      and non-empty when the root is not a leaf; a lone leaf saves one
      record with the empty route. */
  lemma SavePrefixFree(root: HuffmanNode)
    ensures PrefixFree(Save(root))
    ensures forall k :: 0 <= k < |Save(root)| ==> IsBinary(Save(root)[k].path)
    ensures !IsLeaf(root) ==> forall k :: 0 <= k < |Save(root)| ==> Save(root)[k].path != []
    ensures IsLeaf(root) ==> Save(root) == [Record(root.data, "")]
  {
    var records := Save(root);
    SaveOrdered(root, "");
    SaveRoutes(root, "");
    forall k | 0 <= k < |records| ensures IsBinary(records[k].path) {
      assert records[k].path[0..] == records[k].path;
    }
    forall i, j | 0 <= i < |records| && 0 <= j < |records| && i != j
      ensures !(records[i].path <= records[j].path)
    {
      if i < j {
        BeforeIsPrefixFree(records[i].path, records[j].path);
      } else {
        BeforeIsPrefixFree(records[j].path, records[i].path);
      }
    }
  }

  /** Conversely, every leaf reachable by a binary route is saved with that
      route: `k` is the position of its record. */
  lemma {:induction false} SaveComplete(root: HuffmanNode, soFar: string, route: string)
    returns (k: nat)
    requires IsBinary(route) && IsLeaf(Follow(root, route))
    ensures k < |SaveFrom(root, soFar)|
    ensures SaveFrom(root, soFar)[k] == Record(Follow(root, route).data, soFar + route)
    decreases |route|
  {
    if route == [] {
      k := 0;
      assert soFar + route == soFar;
    } else {
      if root.Node? { FollowNull(route[1..]); }
      assert !IsLeaf(root);
      var zeros := SaveFrom(root.zeroLeft, soFar + "0");
      var ones := SaveFrom(root.oneRight, soFar + "1");
      assert SaveFrom(root, soFar) == zeros + ones;
      var bit := if route[0] == '0' then "0" else "1";
      var child := if route[0] == '0' then root.zeroLeft else root.oneRight;
      assert Follow(root, route) == Follow(child, route[1..]);
      assert IsBinary(route[1..]) by {
        assert forall i :: 0 <= i < |route[1..]| ==> route[1..][i] == route[i + 1];
      }
      assert (soFar + bit) + route[1..] == soFar + route by {
        assert route == bit + route[1..];
      }
      var j := SaveComplete(child, soFar + bit, route[1..]);
      k := if route[0] == '0' then j else |zeros| + j;
      assert (zeros + ones)[k] == (if route[0] == '0' then zeros[j] else ones[j]);
    }
  }

  /** A node that stands in where a route passes through an absent child:
      the dummy node HuffmanNode(0, 0). */
  function Fill(root: HuffmanNode): (r: HuffmanNode)
    ensures r.Node? && (root.Node? ==> r == root)
  {
    if root.Null? then NewLeaf(0, 0) else root
  }

  /** readHelper(data, path, root): carve `path` below `root`, creating
      dummy nodes where the route is absent, and put a fresh leaf holding
      `data` (frequency 0) at its end. Only the child on the route's first
      step changes; a first character other than '0' means the one side. */
  function ReadHelper(data: int, path: string, root: HuffmanNode): (r: HuffmanNode)
    ensures Follow(r, path) == NewLeaf(data, 0)
    ensures path != [] ==> r.Node? && r.data == Fill(root).data && r.frequency == Fill(root).frequency
    ensures path != [] && path[0] == '0' ==> r.oneRight == Fill(root).oneRight
    ensures path != [] && path[0] != '0' ==> r.zeroLeft == Fill(root).zeroLeft
    decreases |path|
  {
    if path == [] then NewLeaf(data, 0)
    else
      var node := Fill(root);
      if path[0] == '0' then node.(zeroLeft := ReadHelper(data, path[1..], node.zeroLeft))
      else node.(oneRight := ReadHelper(data, path[1..], node.oneRight))
  }

  /** The first place where two routes send the walk to different sides. */
  predicate Diverge(a: string, b: string)
    decreases |a|
  {
    |a| > 0 && |b| > 0 &&
    if (a[0] == '0') == (b[0] == '0') then Diverge(a[1..], b[1..]) else true
  }

  /** Loading a record leaves every route that parts from the record's own
      route exactly as it was. */
  lemma {:induction false} ReadHelperKeepsOthers(data: int, path: string, root: HuffmanNode, other: string)
    requires Diverge(other, path)
    ensures Follow(ReadHelper(data, path, root), other) == Follow(root, other)
    decreases |path|
  {
    var node := Fill(root);
    var child := if path[0] == '0' then node.zeroLeft else node.oneRight;
    if (other[0] == '0') == (path[0] == '0') {
      ReadHelperKeepsOthers(data, path[1..], child, other[1..]);
      if root.Null? {
        assert Follow(Null, other[1..]) == Null;
        assert Follow(child, other[1..]) == Null;
      }
    } else if root.Null? {
      assert Follow(Null, other[1..]) == Null;
    }
  }

  /** The Scanner constructor's loop: readHelper applied to each record in
      turn, starting from `root`. */
  function LoadFrom(root: HuffmanNode, records: seq<Record>): HuffmanNode
    decreases |records|
  {
    if records == [] then root
    else LoadFrom(ReadHelper(records[0].data, records[0].path, root), records[1..])
  }

  /** Loading all records into an empty tree. */
  function Load(records: seq<Record>): HuffmanNode
  {
    LoadFrom(Null, records)
  }

  lemma {:induction false} LoadFromAppend(root: HuffmanNode, a: seq<Record>, b: seq<Record>)
    ensures LoadFrom(root, a + b) == LoadFrom(LoadFrom(root, a), b)
    decreases |a|
  {
    if a == [] {
      assert a + b == b;
    } else {
      assert (a + b)[1..] == a[1..] + b;
      LoadFromAppend(ReadHelper(a[0].data, a[0].path, root), a[1..], b);
    }
  }

  /** The tree as loading rebuilds it: the same shape and leaf symbols, with
      every frequency 0 and every interior node holding symbol 0. */
  function Strip(t: HuffmanNode): HuffmanNode
  {
    match t
    case Null => Null
    case Node(d, _, z, o) =>
      if z.Null? && o.Null? then NewLeaf(d, 0) else Node(0, 0, Strip(z), Strip(o))
  }

  /** Stripping keeps everything save writes. */
  lemma {:induction false} SaveStrip(t: HuffmanNode, soFar: string)
    ensures SaveFrom(Strip(t), soFar) == SaveFrom(t, soFar)
    decreases t
  {
    if t.Node? && !(t.zeroLeft.Null? && t.oneRight.Null?) {
      SaveStrip(t.zeroLeft, soFar + "0");
      SaveStrip(t.oneRight, soFar + "1");
      if t.zeroLeft.Null? {
        assert Strip(t).zeroLeft.Null? && !Strip(t).oneRight.Null?;
      }
    }
  }

  /** Stripping keeps a full tree full, and keeps its root a leaf or a
      branch as it was. */
  lemma {:induction false} StripFull(t: HuffmanNode)
    requires Full(t)
    ensures Full(Strip(t)) && (IsLeaf(Strip(t)) <==> IsLeaf(t))
    decreases t
  {
    if !IsLeaf(t) {
      StripFull(t.zeroLeft);
      StripFull(t.oneRight);
    }
  }

  /** The tree `root` with `sub` placed at the end of `path`, carving the
      route the way readHelper does. A proof device for the round trip. */
  ghost function Graft(root: HuffmanNode, path: string, sub: HuffmanNode): HuffmanNode
    decreases |path|
  {
    if path == [] then sub
    else
      var node := Fill(root);
      if path[0] == '0' then node.(zeroLeft := Graft(node.zeroLeft, path[1..], sub))
      else node.(oneRight := Graft(node.oneRight, path[1..], sub))
  }

  lemma {:induction false} ReadHelperIsGraft(data: int, path: string, root: HuffmanNode)
    ensures ReadHelper(data, path, root) == Graft(root, path, NewLeaf(data, 0))
    decreases |path|
  {
    if path != [] {
      var node := Fill(root);
      ReadHelperIsGraft(data, path[1..], if path[0] == '0' then node.zeroLeft else node.oneRight);
    }
  }

  /** Placing two subtrees at the two children of an unoccupied position is
      placing their join there. */
  lemma {:induction false} GraftChildren(root: HuffmanNode, p: string, a: HuffmanNode, b: HuffmanNode)
    requires Follow(root, p) == Null
    ensures Graft(Graft(root, p + "0", a), p + "1", b) == Graft(root, p, Node(0, 0, a, b))
    decreases |p|
  {
    if p != [] {
      var node := Fill(root);
      var child := if p[0] == '0' then node.zeroLeft else node.oneRight;
      assert (p + "0")[0] == p[0] && (p + "0")[1..] == p[1..] + "0";
      assert (p + "1")[0] == p[0] && (p + "1")[1..] == p[1..] + "1";
      if root.Null? {
        assert Follow(Null, p[1..]) == Null;
      }
      GraftChildren(child, p[1..], a, b);
    } else {
      assert (p + "0") == "0" && (p + "1") == "1";
    }
  }

  lemma {:induction false} GraftFollow(root: HuffmanNode, p: string, sub: HuffmanNode)
    ensures Follow(Graft(root, p, sub), p) == sub
    decreases |p|
  {
    if p != [] {
      var node := Fill(root);
      GraftFollow(if p[0] == '0' then node.zeroLeft else node.oneRight, p[1..], sub);
    }
  }

  /** Loading the records saved from a full subtree into a tree with an
      empty slot at the subtree's position fills the slot with the stripped
      subtree. */
  lemma {:induction false} LoadSaveFrom(t: HuffmanNode, soFar: string, root: HuffmanNode)
    requires Full(t) && Follow(root, soFar) == Null
    ensures LoadFrom(root, SaveFrom(t, soFar)) == Graft(root, soFar, Strip(t))
    decreases t
  {
    if IsLeaf(t) {
      ReadHelperIsGraft(t.data, soFar, root);
    } else {
      var zeros := SaveFrom(t.zeroLeft, soFar + "0");
      var ones := SaveFrom(t.oneRight, soFar + "1");
      LoadFromAppend(root, zeros, ones);
      assert Follow(root, soFar + "0") == Null by {
        FollowAppend(root, soFar, "0");
      }
      LoadSaveFrom(t.zeroLeft, soFar + "0", root);
      var middle := Graft(root, soFar + "0", Strip(t.zeroLeft));
      assert Follow(middle, soFar + "1") == Null by {
        GraftChildren(root, soFar, Strip(t.zeroLeft), Null);
        GraftFollow(root, soFar, Node(0, 0, Strip(t.zeroLeft), Null));
        FollowAppend(middle, soFar, "1");
        assert Graft(middle, soFar + "1", Null) == Graft(root, soFar, Node(0, 0, Strip(t.zeroLeft), Null));
        FollowGraftPrefix(root, soFar, "0", Strip(t.zeroLeft));
      }
      LoadSaveFrom(t.oneRight, soFar + "1", middle);
      GraftChildren(root, soFar, Strip(t.zeroLeft), Strip(t.oneRight));
    }
  }

  lemma {:induction false} FollowAppend(root: HuffmanNode, p: string, q: string)
    ensures Follow(root, p + q) == Follow(Follow(root, p), q)
    decreases |p|
  {
    if p == [] {
      assert p + q == q;
    } else if root.Null? {
      assert Follow(Null, q) == Null by { FollowNull(q); }
      assert Follow(Null, p) == Null by { FollowNull(p); }
      assert Follow(Null, p + q) == Null by { FollowNull(p + q); }
    } else {
      assert (p + q)[0] == p[0] && (p + q)[1..] == p[1..] + q;
      FollowAppend(if p[0] == '0' then root.zeroLeft else root.oneRight, p[1..], q);
    }
  }

  lemma FollowNull(p: string)
    ensures Follow(Null, p) == Null
  {
  }

  /** After placing `sub` at p + c, the node at p has `sub` on side c and its
      other child unchanged. */
  lemma {:induction false} FollowGraftPrefix(root: HuffmanNode, p: string, c: string, sub: HuffmanNode)
    requires |c| == 1
    ensures var n := Follow(Graft(root, p + c, sub), p);
            n.Node? &&
            (if c[0] == '0' then n.zeroLeft == sub && n.oneRight == Fill(Follow(root, p)).oneRight
             else n.oneRight == sub && n.zeroLeft == Fill(Follow(root, p)).zeroLeft)
    decreases |p|
  {
    if p == [] {
      assert p + c == c;
    } else {
      var node := Fill(root);
      assert (p + c)[0] == p[0] && (p + c)[1..] == p[1..] + c;
      FollowGraftPrefix(if p[0] == '0' then node.zeroLeft else node.oneRight, p[1..], c, sub);
      if root.Null? {
        FollowNull(p);
        FollowNull(p[1..]);
      }
    }
  }

  /** Round trip: loading what save writes for a full tree rebuilds that
      tree, with frequencies and interior symbols reset to 0, and saving the
      rebuilt tree writes the same records again. */
  lemma RoundTrip(t: HuffmanNode)
    requires Full(t)
    ensures Load(Save(t)) == Strip(t)
    ensures Save(Load(Save(t))) == Save(t)
  {
    LoadSaveFrom(t, "", Null);
    SaveStrip(t, "");
  }
}
