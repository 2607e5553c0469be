/** list2tree: the flat list of coded rows becomes a forest of nodes keyed by
    wtcode, each node hung under the code with its last ".segment" removed,
    after the count and mass fields have been coerced and checked. */
module ListToTree {
  import opened Text
  import opened Bom

  // ---------------------------------------------------------------------------
  // Step 1: copy and coerce each row

  /** A node of node_map: the copied row, with count, unit_mass and
      total_mass turned into numbers. The text-to-number conversions are
      parameters (int() and float() are not part of this model). */
  datatype Part = Part(row: Row, count: int, unitMass: real, totalMass: real)

  /** The coercions and checks of list2tree for one row, and the messages
      they add: an empty field counts as 0; a zero count is reported; a zero
      unit mass with a non-zero total mass is filled from the total mass when
      the count is 1 and reported otherwise; a non-zero unit mass with a zero
      total mass is reported. */
  function Coerce(row: Row, toInt: string -> int, toReal: string -> real): (Part, seq<Msg>) {
    var count := if row.count != "" then toInt(row.count) else 0;
    var countMsgs := if count == 0 then [ZeroCount(row)] else [];
    var unitMass := if row.unitMass != "" then toReal(row.unitMass) else 0.0;
    var totalMass := if row.totalMass != "" then toReal(row.totalMass) else 0.0;
    if unitMass == 0.0 then
      if totalMass != 0.0 then
        if count == 1 then (Part(row, count, totalMass, totalMass), countMsgs)
        else (Part(row, count, unitMass, totalMass), countMsgs + [ZeroUnitMass(row, count, totalMass)])
      else (Part(row, count, unitMass, totalMass), countMsgs)
    else if totalMass == 0.0 then (Part(row, count, unitMass, totalMass), countMsgs + [ZeroTotalMass(row, count, unitMass)])
    else (Part(row, count, unitMass, totalMass), countMsgs)
  }

  /** The count rule: a missing count is 0, and a zero count adds exactly
      one message, the first for its row. */
  lemma CoerceCount(row: Row, toInt: string -> int, toReal: string -> real)
    ensures var (part, msgs) := Coerce(row, toInt, toReal);
      && part.row == row
      && part.count == (if row.count == "" then 0 else toInt(row.count))
      && (part.count == 0 <==> |msgs| >= 1 && msgs[0] == ZeroCount(row))
      && |msgs| <= 2
  {
  }

  /** The mass rules, case by case: unit 0 and total non-zero with count 1
      takes the total as unit mass, silently; with another count it adds one
      message; a non-zero unit with total 0 adds one message; otherwise the
      masses are kept as parsed and nothing is added. */
  lemma CoerceMass(row: Row, toInt: string -> int, toReal: string -> real)
    ensures var (part, msgs) := Coerce(row, toInt, toReal);
      var unit := if row.unitMass != "" then toReal(row.unitMass) else 0.0;
      var total := if row.totalMass != "" then toReal(row.totalMass) else 0.0;
      var countMsgs := if part.count == 0 then 1 else 0;
      && part.totalMass == total
      && (unit == 0.0 && total != 0.0 && part.count == 1 ==>
            part.unitMass == total && |msgs| == countMsgs)
      && (unit == 0.0 && total != 0.0 && part.count != 1 ==>
            part.unitMass == unit && |msgs| == countMsgs + 1 && msgs[|msgs| - 1] == ZeroUnitMass(row, part.count, total))
      && (unit != 0.0 && total == 0.0 ==>
            part.unitMass == unit && |msgs| == countMsgs + 1 && msgs[|msgs| - 1] == ZeroTotalMass(row, part.count, unit))
      && ((unit == 0.0) == (total == 0.0) ==> part.unitMass == unit && |msgs| == countMsgs)
  {
  }

  /** Every row carries a wtcode (node['wtcode'] raises KeyError otherwise). */
  predicate AllCoded(rows: seq<Row>) {
    forall i :: 0 <= i < |rows| ==> rows[i].wtcode.Some?
  }

  /** node_map after the first loop: a later row with the same wtcode
      replaces the earlier one. */
  function PartMap(rows: seq<Row>, toInt: string -> int, toReal: string -> real): map<string, Part>
    requires AllCoded(rows)
    decreases |rows|
  {
    if rows == [] then map[]
    else
      var last := rows[|rows| - 1];
      PartMap(rows[..|rows| - 1], toInt, toReal)[last.wtcode.value := Coerce(last, toInt, toReal).0]
  }

  /** The keys of node_map in the order a dict keeps them: by first insertion. */
  function KeyOrder(rows: seq<Row>): seq<string>
    requires AllCoded(rows)
    decreases |rows|
  {
    if rows == [] then []
    else
      var keys := KeyOrder(rows[..|rows| - 1]);
      var w := rows[|rows| - 1].wtcode.value;
      if w in keys then keys else keys + [w]
  }

  /** The messages of the first loop, row by row. */
  function RowMsgs(rows: seq<Row>, toInt: string -> int, toReal: string -> real): seq<Msg>
    decreases |rows|
  {
    if rows == [] then []
    else RowMsgs(rows[..|rows| - 1], toInt, toReal) + Coerce(rows[|rows| - 1], toInt, toReal).1
  }

  predicate Distinct(s: seq<string>) {
    forall i, j :: 0 <= i < j < |s| ==> s[i] != s[j]
  }

  lemma AllCodedPrefix(rows: seq<Row>)
    requires |rows| >= 1 && AllCoded(rows)
    ensures AllCoded(rows[..|rows| - 1])
  {
    var init := rows[..|rows| - 1];
    forall i | 0 <= i < |init| ensures init[i].wtcode.Some? { assert init[i] == rows[i]; }
  }

  /** node_map is keyed by exactly the wtcodes of the rows. */
  lemma {:induction false} PartMapKeys(rows: seq<Row>, toInt: string -> int, toReal: string -> real)
    requires AllCoded(rows)
    ensures PartMap(rows, toInt, toReal).Keys == set i | 0 <= i < |rows| :: rows[i].wtcode.value
    decreases |rows|
  {
    if rows != [] {
      var init := rows[..|rows| - 1];
      AllCodedPrefix(rows);
      PartMapKeys(init, toInt, toReal);
      var w := rows[|rows| - 1].wtcode.value;
      calc {
        PartMap(rows, toInt, toReal).Keys;
        PartMap(init, toInt, toReal).Keys + {w};
        (set i | 0 <= i < |init| :: init[i].wtcode.value) + {w};
        { assert forall i :: 0 <= i < |init| ==> init[i] == rows[i]; }
        set i | 0 <= i < |rows| :: rows[i].wtcode.value;
      }
    }
  }

  /** Each node of node_map is the coerced LAST row with its key: a later
      row with the same wtcode replaces the earlier one. */
  lemma {:induction false} PartMapLast(rows: seq<Row>, toInt: string -> int, toReal: string -> real, i: nat)
    requires AllCoded(rows) && i < |rows|
    requires forall j :: i < j < |rows| ==> rows[j].wtcode != rows[i].wtcode
    ensures rows[i].wtcode.value in PartMap(rows, toInt, toReal)
    ensures PartMap(rows, toInt, toReal)[rows[i].wtcode.value] == Coerce(rows[i], toInt, toReal).0
    decreases |rows|
  {
    if i < |rows| - 1 {
      var init := rows[..|rows| - 1];
      AllCodedPrefix(rows);
      assert rows[|rows| - 1].wtcode != rows[i].wtcode;
      assert init[i] == rows[i];
      forall j | i < j < |init| ensures init[j].wtcode != init[i].wtcode { assert init[j] == rows[j]; }
      PartMapLast(init, toInt, toReal, i);
    }
  }

  /** The key order lists every key of node_map, each once. */
  lemma {:induction false} KeyOrderKeys(rows: seq<Row>, toInt: string -> int, toReal: string -> real)
    requires AllCoded(rows)
    ensures Distinct(KeyOrder(rows))
    ensures forall k :: k in KeyOrder(rows) <==> k in PartMap(rows, toInt, toReal)
    decreases |rows|
  {
    if rows != [] {
      AllCodedPrefix(rows);
      KeyOrderKeys(rows[..|rows| - 1], toInt, toReal);
    }
  }

  /** The first loop of list2tree: copy and coerce each row, report what the
      checks find, and key the nodes by wtcode. None: a row without a wtcode
      (KeyError). */
  method IndexRows(rows: seq<Row>, toInt: string -> int, toReal: string -> real)
    returns (r: Option<(map<string, Part>, seq<string>, seq<Msg>)>)
    ensures r.None? <==> !AllCoded(rows)
    ensures r.Some? ==> && AllCoded(rows)
                        && r.value == (PartMap(rows, toInt, toReal), KeyOrder(rows), RowMsgs(rows, toInt, toReal))
  {
    var nodeMap: map<string, Part> := map[];
    var keys: seq<string> := [];
    var msgs: seq<Msg> := [];
    for i := 0 to |rows|
      invariant AllCoded(rows[..i])
      invariant nodeMap == PartMap(rows[..i], toInt, toReal)
      invariant keys == KeyOrder(rows[..i])
      invariant msgs == RowMsgs(rows[..i], toInt, toReal)
      invariant forall k :: k in keys <==> k in nodeMap
    {
      assert rows[..i + 1][..i] == rows[..i];
      var (part, found) := Coerce(rows[i], toInt, toReal);
      msgs := msgs + found;
      if rows[i].wtcode.None? {
        assert !AllCoded(rows);
        return None;
      }
      var w := rows[i].wtcode.value;
      if w !in nodeMap {
        keys := keys + [w];
      }
      nodeMap := nodeMap[w := part];
      assert AllCoded(rows[..i + 1]) by {
        forall j | 0 <= j < i + 1 ensures rows[j].wtcode.Some? {
          if j < i { assert rows[..i][j] == rows[j]; }
        }
      }
    }
    assert rows[..|rows|] == rows;
    return Some((nodeMap, keys, msgs));
  }

  // ---------------------------------------------------------------------------
  // sorted(node_map.keys()): Python's string order

  /** Strictly ascending in Python's string order. */
  predicate Ascending(s: seq<string>) {
    forall i, j :: 0 <= i < j < |s| ==> Less(s[i], s[j])
  }

  function Insert(x: string, s: seq<string>): (r: seq<string>)
    ensures multiset(r) == multiset(s) + multiset{x}
    decreases |s|
  {
    if s == [] then [x]
    else if Less(x, s[0]) then [x] + s
    else
      assert s == [s[0]] + s[1..];
      [s[0]] + Insert(x, s[1..])
  }

  /** sorted() on a list of strings. */
  function SortStrings(s: seq<string>): (r: seq<string>)
    ensures multiset(r) == multiset(s)
    decreases |s|
  {
    if s == [] then []
    else
      assert s == [s[0]] + s[1..];
      Insert(s[0], SortStrings(s[1..]))
  }

  lemma {:induction false} InsertAscending(x: string, s: seq<string>)
    requires Ascending(s) && x !in s
    ensures Ascending(Insert(x, s))
    decreases |s|
  {
    if s != [] {
      LessTotal(x, s[0]);
      if !Less(x, s[0]) {
        InsertAscending(x, s[1..]);
        var r := Insert(x, s[1..]);
        forall k | 0 <= k < |r| ensures Less(s[0], r[k]) {
          assert r[k] in multiset(s[1..]) + multiset{x};
          if r[k] != x {
            assert r[k] in s[1..];
            var j :| 0 <= j < |s[1..]| && s[1..][j] == r[k];
            assert s[1 + j] == r[k];
          }
        }
      } else {
        forall j | 1 <= j < |s| ensures Less(x, s[j]) {
          LessTransitive(x, s[0], s[j]);
        }
      }
    }
  }

  /** The keys, distinct as dict keys are, come out in strictly ascending
      string order and are the same keys. */
  lemma {:induction false} SortStringsAscending(s: seq<string>)
    requires Distinct(s)
    ensures Ascending(SortStrings(s))
    decreases |s|
  {
    if s != [] {
      var rest := s[1..];
      assert Distinct(rest) by {
        forall i, j | 0 <= i < j < |rest| ensures rest[i] != rest[j] { assert rest[i] == s[i + 1] && rest[j] == s[j + 1]; }
      }
      SortStringsAscending(rest);
      assert s[0] !in multiset(SortStrings(rest)) by {
        forall j | 0 <= j < |rest| ensures rest[j] != s[0] { assert rest[j] == s[j + 1]; }
      }
      InsertAscending(s[0], SortStrings(rest));
    }
  }

  /** The order is the character-by-character one, not a numeric one:
      "1.10" sorts before "1.2". */
  lemma StringOrderIsNotNumeric()
    ensures Less("1.10", "1.2") && !Less("1.2", "1.10")
    ensures SortStrings(["1.2", "1.10"]) == ["1.10", "1.2"]
  {
    assert "1.10"[1..] == ".10" && "1.2"[1..] == ".2";
    assert ".10"[1..] == "10" && ".2"[1..] == "2";
    assert Less("10", "2");
    assert !Less("2", "10");
  }

  // ---------------------------------------------------------------------------
  // Step 2: hang every node under its parent code

  /** The node a key is appended to: the code up to its last dot, when the
      key has a dot and that code is a key too; None means a root. */
  function Parent(w: string, keys: set<string>): (p: Option<string>)
    ensures p.Some? ==> Dot in w && p.value == ParentCode(w) && p.value in keys && |p.value| < |w|
    ensures p.None? ==> Dot !in w || ParentCode(w) !in keys
  {
    if Dot in w && ParentCode(w) in keys then Some(ParentCode(w)) else None
  }

  /** The keys of `order` whose parent is `p` (None: the roots), in order. */
  function Under(order: seq<string>, p: Option<string>, keys: set<string>): (r: seq<string>)
    decreases |order|
  {
    if order == [] then []
    else
      var init := Under(order[..|order| - 1], p, keys);
      var w := order[|order| - 1];
      if Parent(w, keys) == p then init + [w] else init
  }

  /** Under keeps exactly the keys with that parent, in their order. */
  lemma {:induction false} UnderMembers(order: seq<string>, p: Option<string>, keys: set<string>)
    ensures forall w :: w in Under(order, p, keys) <==> w in order && Parent(w, keys) == p
    ensures |Under(order, p, keys)| <= |order|
    ensures Ascending(order) ==> Ascending(Under(order, p, keys))
    decreases |order|
  {
    if order != [] {
      var init := order[..|order| - 1];
      UnderMembers(init, p, keys);
      if Ascending(order) {
        var u := Under(init, p, keys);
        assert Ascending(init);
        forall k | 0 <= k < |u| ensures Less(u[k], order[|order| - 1]) {
          assert u[k] in init;
          var j :| 0 <= j < |init| && init[j] == u[k];
          assert order[j] == u[k];
        }
      }
    }
  }

  /** The children lists after the second loop, one per key. */
  function ChildLists(order: seq<string>, keys: set<string>): map<string, seq<string>> {
    map p | p in keys :: Under(order, Some(p), keys)
  }

  /** The second loop of list2tree, over the sorted keys: a key with a dot
      whose cut-off code is a key is appended to that node's children, any
      other key to the roots. */
  method Assemble(order: seq<string>, keys: set<string>) returns (tree: seq<string>, children: map<string, seq<string>>)
    ensures tree == Under(order, None, keys)
    ensures children == ChildLists(order, keys)
  {
    tree := [];
    children := map p | p in keys :: [];
    for i := 0 to |order|
      invariant tree == Under(order[..i], None, keys)
      invariant children == ChildLists(order[..i], keys)
    {
      assert order[..i + 1][..i] == order[..i];
      var w := order[i];
      var lastDot := RFind(w, Dot);
      if lastDot == -1 {
        tree := tree + [w];
      } else {
        var parent := w[..lastDot];
        if parent in children {
          children := children[parent := children[parent] + [w]];
        } else {
          tree := tree + [w];
        }
      }
    }
    assert order[..|order|] == order;
  }

  // ---------------------------------------------------------------------------
  // The tree handed back in res["data"]

  /** A node dict of the result: its key (the wtcode), the coerced row, and
      its children field. */
  datatype Node = Node(key: string, part: Part, children: Field)

  /** A children field: a list, or Deleted once remove_empty_children has
      removed it. */
  datatype Field = Deleted | Listed(nodes: seq<Node>)

  /** The children list of a node, empty when the field is deleted. */
  function Kids(n: Node): seq<Node> {
    if n.children.Listed? then n.children.nodes else []
  }

  function KeysOf(ns: seq<Node>): (r: seq<string>)
    ensures |r| == |ns| && forall i :: 0 <= i < |ns| ==> r[i] == ns[i].key
  {
    seq(|ns|, i requires 0 <= i < |ns| => ns[i].key)
  }

  /** The longest key, the bound on how deep the nesting can go. */
  function MaxLen(s: seq<string>): (m: nat)
    ensures forall i :: 0 <= i < |s| ==> |s[i]| <= m
    decreases |s|
  {
    if s == [] then 0
    else
      var m := MaxLen(s[..|s| - 1]);
      assert forall i :: 0 <= i < |s| - 1 ==> s[..|s| - 1][i] == s[i];
      if |s[|s| - 1]| > m then |s[|s| - 1]| else m
  }

  /** The children lists name known keys, each longer than its parent and
      no longer than the bound. */
  predicate Nested(nodes: map<string, Part>, children: map<string, seq<string>>, bound: nat) {
    && children.Keys == nodes.Keys
    && forall p, c :: p in children && c in children[p] ==> c in children && |p| < |c| <= bound
  }

  /** The node of key w with its children attached, as the node objects
      shared between node_map and the children lists end up. */
  function Subtree(nodes: map<string, Part>, children: map<string, seq<string>>, bound: nat, w: string): (n: Node)
    requires Nested(nodes, children, bound) && w in children && |w| <= bound
    ensures n.key == w && n.part == nodes[w] && n.children.Listed? && KeysOf(n.children.nodes) == children[w]
    decreases bound - |w| + 1, 0
  {
    Node(w, nodes[w], Listed(Subforest(nodes, children, bound, children[w], |w| + 1)))
  }

  function Subforest(nodes: map<string, Part>, children: map<string, seq<string>>, bound: nat,
                     ws: seq<string>, depth: nat): (r: seq<Node>)
    requires Nested(nodes, children, bound) && depth <= bound + 1
    requires forall v :: v in ws ==> v in children && depth <= |v| <= bound
    ensures KeysOf(r) == ws
    decreases bound + 1 - depth, |ws|
  {
    if ws == [] then []
    else [Subtree(nodes, children, bound, ws[0])] + Subforest(nodes, children, bound, ws[1..], depth)
  }

  /** remove_empty_children: delete every empty children field, at every
      level. */
  function Prune(n: Node): (r: Node)
    ensures r.key == n.key && r.part == n.part
    decreases n
  {
    match n.children
    case Listed(cs) => Node(n.key, n.part, if cs != [] then Listed(PruneAll(cs)) else Deleted)
    case Deleted => n
  }

  function PruneAll(ns: seq<Node>): (r: seq<Node>)
    ensures KeysOf(r) == KeysOf(ns)
    decreases ns
  {
    if ns == [] then [] else [Prune(ns[0])] + PruneAll(ns[1..])
  }

  /** The keys of a forest in document order. */
  function Flatten(n: Node): seq<string>
    decreases n
  {
    match n.children
    case Listed(cs) => [n.key] + FlattenAll(cs)
    case Deleted => [n.key]
  }

  function FlattenAll(ns: seq<Node>): seq<string>
    decreases ns
  {
    if ns == [] then [] else Flatten(ns[0]) + FlattenAll(ns[1..])
  }

  /** No node carries an empty children field. */
  predicate NoEmptyChildren(n: Node)
    decreases n
  {
    match n.children
    case Listed(cs) => cs != [] && NoEmptyChildrenAll(cs)
    case Deleted => true
  }

  predicate NoEmptyChildrenAll(ns: seq<Node>)
    decreases ns
  {
    ns != [] ==> NoEmptyChildren(ns[0]) && NoEmptyChildrenAll(ns[1..])
  }

  /** remove_empty_children keeps every node and every non-empty children
      list (same keys, same order), and leaves no empty children field. */
  lemma {:induction false} PruneKeeps(n: Node)
    ensures Flatten(Prune(n)) == Flatten(n)
    ensures NoEmptyChildren(Prune(n))
    ensures KeysOf(Kids(Prune(n))) == KeysOf(Kids(n))
    ensures Prune(n).children.Listed? <==> Kids(n) != []
    decreases n
  {
    match n.children
    case Listed(cs) => PruneAllKeeps(cs);
    case Deleted =>
  }

  lemma {:induction false} PruneAllKeeps(ns: seq<Node>)
    ensures FlattenAll(PruneAll(ns)) == FlattenAll(ns)
    ensures NoEmptyChildrenAll(PruneAll(ns))
    decreases ns
  {
    if ns != [] {
      PruneKeeps(ns[0]);
      PruneAllKeeps(ns[1..]);
      assert PruneAll(ns)[1..] == PruneAll(ns[1..]);
    }
  }

  // ---------------------------------------------------------------------------
  // Each key ends up in the forest exactly once

  /** a is k or one of the codes k hangs under, transitively. */
  predicate Anc(a: string, k: string, keys: set<string>)
    decreases |k|
  {
    k == a || (Parent(k, keys).Some? && Anc(a, Parent(k, keys).value, keys))
  }

  lemma {:induction false} AncShorter(a: string, k: string, keys: set<string>)
    ensures Anc(a, k, keys) ==> |a| <= |k|
    ensures Anc(a, k, keys) && k in keys ==> a in keys
    decreases |k|
  {
    if k != a && Parent(k, keys).Some? {
      AncShorter(a, Parent(k, keys).value, keys);
    }
  }

  /** The codes above k form one chain: two of them are related by length. */
  lemma {:induction false} AncChain(a: string, b: string, k: string, keys: set<string>)
    requires Anc(a, k, keys) && Anc(b, k, keys) && |a| <= |b|
    ensures Anc(a, b, keys)
    decreases |k|
  {
    if k != b {
      if k == a {
        AncShorter(b, Parent(k, keys).value, keys);
      } else {
        AncChain(a, b, Parent(k, keys).value, keys);
      }
    }
  }

  /** Above a node's child lies the node itself. */
  lemma {:induction false} AncUp(c: string, w: string, k: string, keys: set<string>)
    requires Parent(c, keys) == Some(w)
    ensures Anc(c, k, keys) ==> Anc(w, k, keys)
    decreases |k|
  {
    if k != c && Parent(k, keys).Some? {
      AncUp(c, w, Parent(k, keys).value, keys);
    } else if k == c {
      assert Anc(w, w, keys);
    }
  }

  /** At most one child of a node lies on the chain above k. */
  lemma SiblingsOnChain(v: string, c: string, w: string, k: string, keys: set<string>)
    requires Parent(v, keys) == Some(w) && Parent(c, keys) == Some(w)
    requires Anc(v, k, keys) && Anc(c, k, keys)
    ensures v == c
  {
    AncShorter(v, w, keys);
    AncShorter(c, w, keys);
    if |v| <= |c| {
      AncChain(v, c, k, keys);
    } else {
      AncChain(c, v, k, keys);
    }
  }

  /** At most one root lies on the chain above k. */
  lemma RootsOnChain(r: string, q: string, k: string, keys: set<string>)
    requires Parent(r, keys).None? && Parent(q, keys).None?
    requires Anc(r, k, keys) && Anc(q, k, keys)
    ensures r == q
  {
    if |r| <= |q| {
      AncChain(r, q, k, keys);
    } else {
      AncChain(q, r, k, keys);
    }
  }

  /** Below w, the chain from k passes through a child of w. */
  lemma {:induction false} ChildOnChain(w: string, k: string, keys: set<string>) returns (c: string)
    requires k in keys && Anc(w, k, keys) && k != w
    ensures c in keys && Parent(c, keys) == Some(w) && Anc(c, k, keys)
    decreases |k|
  {
    var p := Parent(k, keys).value;
    if p == w {
      c := k;
    } else {
      c := ChildOnChain(w, p, keys);
    }
  }

  /** The chain from a key ends at a root. */
  lemma {:induction false} RootOnChain(k: string, keys: set<string>) returns (r: string)
    requires k in keys
    ensures r in keys && Parent(r, keys).None? && Anc(r, k, keys)
    decreases |k|
  {
    match Parent(k, keys)
    case None => r := k;
    case Some(p) => r := RootOnChain(p, keys);
  }

  predicate Below(w: string, k: string, keys: set<string>) {
    k in keys && Anc(w, k, keys)
  }

  /** How many of ws have k at or below them. */
  function CountBelow(ws: seq<string>, k: string, keys: set<string>): nat
    decreases |ws|
  {
    if ws == [] then 0 else (if Below(ws[0], k, keys) then 1 else 0) + CountBelow(ws[1..], k, keys)
  }

  lemma {:induction false} CountBelowNone(ws: seq<string>, k: string, keys: set<string>)
    requires forall v :: v in ws ==> !Below(v, k, keys)
    ensures CountBelow(ws, k, keys) == 0
    decreases |ws|
  {
    if ws != [] {
      CountBelowNone(ws[1..], k, keys);
    }
  }

  lemma {:induction false} CountBelowOne(ws: seq<string>, k: string, keys: set<string>, c: string)
    requires Distinct(ws) && c in ws && Below(c, k, keys)
    requires forall v :: v in ws && Below(v, k, keys) ==> v == c
    ensures CountBelow(ws, k, keys) == 1
    decreases |ws|
  {
    var rest := ws[1..];
    assert Distinct(rest) by {
      forall i, j | 0 <= i < j < |rest| ensures rest[i] != rest[j] { assert rest[i] == ws[i + 1] && rest[j] == ws[j + 1]; }
    }
    if ws[0] == c {
      forall v | v in rest ensures !Below(v, k, keys) {
        var j :| 0 <= j < |rest| && rest[j] == v;
        assert ws[j + 1] == v;
      }
      CountBelowNone(rest, k, keys);
    } else {
      CountBelowOne(rest, k, keys, c);
    }
  }

  lemma AscendingDistinct(s: seq<string>)
    requires Ascending(s)
    ensures Distinct(s)
  {
    forall i, j | 0 <= i < j < |s| ensures s[i] != s[j] {
      if s[i] == s[j] { LessIrreflexive(s[i]); }
    }
  }

  /** Each children list names exactly the keys hung under its node, each
      once. */
  ghost predicate ExactChildren(children: map<string, seq<string>>) {
    forall p :: p in children ==>
      && Distinct(children[p])
      && forall c :: c in children[p] <==> c in children && Parent(c, children.Keys) == Some(p)
  }

  /** Below a node w lie w itself and what lies below its children, each
      key once. */
  lemma ChildrenCount(children: map<string, seq<string>>, w: string, k: string)
    requires ExactChildren(children) && w in children
    requires forall c :: c in children[w] ==> |w| < |c|
    ensures (if k == w && k in children then 1 else 0) + CountBelow(children[w], k, children.Keys)
            == if Below(w, k, children.Keys) then 1 else 0
  {
    var keys := children.Keys;
    var cs := children[w];
    if k !in keys {
      CountBelowNone(cs, k, keys);
    } else if k == w {
      forall v | v in cs ensures !Below(v, k, keys) {
        AncShorter(v, k, keys);
      }
      CountBelowNone(cs, k, keys);
    } else if Anc(w, k, keys) {
      var c := ChildOnChain(w, k, keys);
      forall v | v in cs && Below(v, k, keys) ensures v == c {
        SiblingsOnChain(v, c, w, k, keys);
      }
      CountBelowOne(cs, k, keys, c);
    } else {
      forall v | v in cs ensures !Below(v, k, keys) {
        AncUp(v, w, k, keys);
      }
      CountBelowNone(cs, k, keys);
    }
  }

  /** A node's subtree holds each key at or below it exactly once, and no
      other key. */
  lemma {:induction false} SubtreeCount(nodes: map<string, Part>, children: map<string, seq<string>>, bound: nat,
                                        w: string, k: string)
    requires Nested(nodes, children, bound) && ExactChildren(children) && w in children && |w| <= bound
    ensures multiset(Flatten(Subtree(nodes, children, bound, w)))[k] == if Below(w, k, children.Keys) then 1 else 0
    decreases bound - |w| + 1, 0
  {
    var sub := Subforest(nodes, children, bound, children[w], |w| + 1);
    assert Flatten(Subtree(nodes, children, bound, w)) == [w] + FlattenAll(sub);
    SubforestCount(nodes, children, bound, children[w], |w| + 1, k);
    ChildrenCount(children, w, k);
  }

  /** The first tree of a forest, then the rest. */
  lemma SubforestCons(nodes: map<string, Part>, children: map<string, seq<string>>, bound: nat,
                      ws: seq<string>, depth: nat)
    requires Nested(nodes, children, bound) && depth <= bound + 1
    requires forall v :: v in ws ==> v in children && depth <= |v| <= bound
    requires ws != []
    ensures FlattenAll(Subforest(nodes, children, bound, ws, depth)) ==
            Flatten(Subtree(nodes, children, bound, ws[0])) + FlattenAll(Subforest(nodes, children, bound, ws[1..], depth))
  {
    var f := Subforest(nodes, children, bound, ws, depth);
    assert f[1..] == Subforest(nodes, children, bound, ws[1..], depth);
  }

  lemma {:induction false} SubforestCount(nodes: map<string, Part>, children: map<string, seq<string>>, bound: nat,
                                          ws: seq<string>, depth: nat, k: string)
    requires Nested(nodes, children, bound) && ExactChildren(children) && depth <= bound + 1
    requires forall v :: v in ws ==> v in children && depth <= |v| <= bound
    ensures multiset(FlattenAll(Subforest(nodes, children, bound, ws, depth)))[k] == CountBelow(ws, k, children.Keys)
    decreases bound + 1 - depth, |ws|
  {
    if ws != [] {
      SubforestCons(nodes, children, bound, ws, depth);
      SubtreeCount(nodes, children, bound, ws[0], k);
      SubforestCount(nodes, children, bound, ws[1..], depth, k);
    }
  }

  /** The roots, counted the same way: every key has exactly one root on
      its chain. */
  lemma RootsCount(order: seq<string>, keys: set<string>, k: string)
    requires Ascending(order) && forall v :: v in order <==> v in keys
    ensures CountBelow(Under(order, None, keys), k, keys) == if k in keys then 1 else 0
  {
    var roots := Under(order, None, keys);
    UnderMembers(order, None, keys);
    if k in keys {
      var r := RootOnChain(k, keys);
      forall v | v in roots && Below(v, k, keys) ensures v == r {
        RootsOnChain(v, r, k, keys);
      }
      AscendingDistinct(roots);
      CountBelowOne(roots, k, keys, r);
    } else {
      CountBelowNone(roots, k, keys);
    }
  }

  /** The children lists the second loop builds are nested and exact. */
  lemma ChildListsExact(nodes: map<string, Part>, order: seq<string>)
    requires Ascending(order) && forall v :: v in order <==> v in nodes
    ensures Nested(nodes, ChildLists(order, nodes.Keys), MaxLen(order))
    ensures ExactChildren(ChildLists(order, nodes.Keys))
  {
    var keys := nodes.Keys;
    var children := ChildLists(order, keys);
    forall p | p in children
      ensures Distinct(children[p])
      ensures forall c :: c in children[p] ==> c in keys && Parent(c, keys) == Some(p) && |p| < |c| <= MaxLen(order)
      ensures forall c :: c in children[p] <==> c in children && Parent(c, keys) == Some(p)
    {
      UnderMembers(order, Some(p), keys);
      AscendingDistinct(children[p]);
      forall c | c in children[p] ensures |c| <= MaxLen(order) {
        var i :| 0 <= i < |order| && order[i] == c;
      }
    }
  }

  /** res["data"]: the roots in sorted order, each with its subtree, after
      remove_empty_children. */
  function Forest(nodes: map<string, Part>, order: seq<string>): seq<Node>
    requires Ascending(order) && forall v :: v in order <==> v in nodes
  {
    ChildListsExact(nodes, order);
    UnderMembers(order, None, nodes.Keys);
    PruneAll(Subforest(nodes, ChildLists(order, nodes.Keys), MaxLen(order), Under(order, None, nodes.Keys), 0))
  }

  /** The forest before remove_empty_children, and what Forest does to it. */
  lemma ForestDraft(nodes: map<string, Part>, order: seq<string>) returns (draft: seq<Node>)
    requires Ascending(order) && forall v :: v in order <==> v in nodes
    ensures Nested(nodes, ChildLists(order, nodes.Keys), MaxLen(order))
    ensures ExactChildren(ChildLists(order, nodes.Keys))
    ensures forall v :: v in Under(order, None, nodes.Keys) ==> v in nodes && |v| <= MaxLen(order)
    ensures draft == Subforest(nodes, ChildLists(order, nodes.Keys), MaxLen(order), Under(order, None, nodes.Keys), 0)
    ensures Forest(nodes, order) == PruneAll(draft)
  {
    ChildListsExact(nodes, order);
    UnderMembers(order, None, nodes.Keys);
    draft := Subforest(nodes, ChildLists(order, nodes.Keys), MaxLen(order), Under(order, None, nodes.Keys), 0);
  }

  /** The forest holds every key of node_map exactly once, and nothing else. */
  lemma ForestKeysOnce(nodes: map<string, Part>, order: seq<string>, k: string)
    requires Ascending(order) && forall v :: v in order <==> v in nodes
    ensures multiset(FlattenAll(Forest(nodes, order)))[k] == if k in nodes then 1 else 0
  {
    var draft := ForestDraft(nodes, order);
    PruneAllKeeps(draft);
    SubforestCount(nodes, ChildLists(order, nodes.Keys), MaxLen(order), Under(order, None, nodes.Keys), 0, k);
    RootsCount(order, nodes.Keys, k);
  }

  /** The roots are, in ascending order, exactly the keys without a dot or
      whose cut-off code is not a key. */
  lemma ForestRoots(nodes: map<string, Part>, order: seq<string>)
    requires Ascending(order) && forall v :: v in order <==> v in nodes
    ensures Ascending(KeysOf(Forest(nodes, order)))
    ensures forall k :: k in KeysOf(Forest(nodes, order)) <==> k in nodes && Parent(k, nodes.Keys).None?
  {
    var draft := ForestDraft(nodes, order);
    assert KeysOf(Forest(nodes, order)) == Under(order, None, nodes.Keys);
    UnderMembers(order, None, nodes.Keys);
  }

  /** After remove_empty_children no node has an empty children field. */
  lemma ForestNoEmptyChildren(nodes: map<string, Part>, order: seq<string>)
    requires Ascending(order) && forall v :: v in order <==> v in nodes
    ensures NoEmptyChildrenAll(Forest(nodes, order))
  {
    var draft := ForestDraft(nodes, order);
    PruneAllKeeps(draft);
  }

  /** Every node of a forest is the node_map entry of its key, and its
      children are, in ascending order, exactly the keys hung under it; a
      deleted children field means no key hangs under it. */
  ghost predicate Hung(n: Node, nodes: map<string, Part>, order: seq<string>)
    decreases n
  {
    && n.key in nodes && n.part == nodes[n.key]
    && match n.children
       case Listed(cs) =>
         && KeysOf(cs) == Under(order, Some(n.key), nodes.Keys) && Ascending(KeysOf(cs))
         && HungAll(cs, nodes, order)
       case Deleted => Under(order, Some(n.key), nodes.Keys) == []
  }

  ghost predicate HungAll(ns: seq<Node>, nodes: map<string, Part>, order: seq<string>)
    decreases ns
  {
    ns != [] ==> Hung(ns[0], nodes, order) && HungAll(ns[1..], nodes, order)
  }

  lemma {:induction false} SubtreeHung(nodes: map<string, Part>, order: seq<string>, w: string)
    requires Ascending(order) && forall v :: v in order <==> v in nodes
    requires Nested(nodes, ChildLists(order, nodes.Keys), MaxLen(order))
    requires w in nodes && |w| <= MaxLen(order)
    ensures Hung(Prune(Subtree(nodes, ChildLists(order, nodes.Keys), MaxLen(order), w)), nodes, order)
    decreases MaxLen(order) - |w| + 1, 0
  {
    var children := ChildLists(order, nodes.Keys);
    var n := Subtree(nodes, children, MaxLen(order), w);
    var cs := n.children.nodes;
    assert cs == Subforest(nodes, children, MaxLen(order), children[w], |w| + 1);
    assert children[w] == Under(order, Some(w), nodes.Keys);
    UnderMembers(order, Some(w), nodes.Keys);
    if cs != [] {
      assert forall v :: v in children[w] ==> v in nodes && |w| + 1 <= |v| <= MaxLen(order);
      SubforestHung(nodes, order, children[w], |w| + 1);
    }
    PruneHung(n, nodes, order);
  }

  /** A node whose own children list is right keeps a right one when
      pruned. */
  lemma PruneHung(n: Node, nodes: map<string, Part>, order: seq<string>)
    requires n.key in nodes && n.part == nodes[n.key] && n.children.Listed?
    requires KeysOf(n.children.nodes) == Under(order, Some(n.key), nodes.Keys)
    requires Ascending(KeysOf(n.children.nodes))
    requires n.children.nodes != [] ==> HungAll(PruneAll(n.children.nodes), nodes, order)
    ensures Hung(Prune(n), nodes, order)
  {
  }

  lemma {:induction false} SubforestHung(nodes: map<string, Part>, order: seq<string>, ws: seq<string>, depth: nat)
    requires Ascending(order) && forall v :: v in order <==> v in nodes
    requires Nested(nodes, ChildLists(order, nodes.Keys), MaxLen(order)) && depth <= MaxLen(order) + 1
    requires forall v :: v in ws ==> v in nodes && depth <= |v| <= MaxLen(order)
    ensures HungAll(PruneAll(Subforest(nodes, ChildLists(order, nodes.Keys), MaxLen(order), ws, depth)), nodes, order)
    decreases MaxLen(order) + 1 - depth, |ws|
  {
    if ws != [] {
      var children := ChildLists(order, nodes.Keys);
      var f := Subforest(nodes, children, MaxLen(order), ws, depth);
      var rest := Subforest(nodes, children, MaxLen(order), ws[1..], depth);
      assert f == [Subtree(nodes, children, MaxLen(order), ws[0])] + rest;
      assert PruneAll(f) == [Prune(f[0])] + PruneAll(rest);
      SubtreeHung(nodes, order, ws[0]);
      SubforestHung(nodes, order, ws[1..], depth);
    }
  }

  /** Every node of the forest is hung under the right parent, with its
      children in ascending string order. */
  lemma ForestHung(nodes: map<string, Part>, order: seq<string>)
    requires Ascending(order) && forall v :: v in order <==> v in nodes
    ensures HungAll(Forest(nodes, order), nodes, order)
  {
    var draft := ForestDraft(nodes, order);
    SubforestHung(nodes, order, Under(order, None, nodes.Keys), 0);
  }

  // ---------------------------------------------------------------------------
  // list2tree

  /** The sorted keys of node_map are ascending and are its keys. */
  lemma SortedKeys(rows: seq<Row>, toInt: string -> int, toReal: string -> real)
    requires AllCoded(rows)
    ensures Ascending(SortStrings(KeyOrder(rows)))
    ensures forall v :: v in SortStrings(KeyOrder(rows)) <==> v in PartMap(rows, toInt, toReal)
  {
    KeyOrderKeys(rows, toInt, toReal);
    SortStringsAscending(KeyOrder(rows));
    assert forall v :: v in SortStrings(KeyOrder(rows)) <==> v in multiset(KeyOrder(rows));
  }

  /** res["data"] as list2tree leaves it. */
  function TreeOf(rows: seq<Row>, toInt: string -> int, toReal: string -> real): seq<Node>
    requires AllCoded(rows)
  {
    SortedKeys(rows, toInt, toReal);
    Forest(PartMap(rows, toInt, toReal), SortStrings(KeyOrder(rows)))
  }

  /** list2tree: KeyError on a row without a wtcode; otherwise the forest,
      with the messages of the checks appended to the info list. */
  method ListToTree(rows: seq<Row>, info: seq<Msg>, toInt: string -> int, toReal: string -> real)
    returns (r: Result<(seq<Node>, seq<Msg>)>)
    ensures r.Err? <==> !AllCoded(rows)
    ensures r.Err? ==> r.error == KeyError
    ensures r.Ok? ==> && AllCoded(rows)
                      && r.value == (TreeOf(rows, toInt, toReal), info + RowMsgs(rows, toInt, toReal))
  {
    var indexed := IndexRows(rows, toInt, toReal);
    if indexed.None? {
      return Err(KeyError);
    }
    var (nodeMap, keys, msgs) := indexed.value;
    var order := SortStrings(keys);
    SortedKeys(rows, toInt, toReal);
    var tree, children := Assemble(order, nodeMap.Keys);
    var draft := ForestDraft(nodeMap, order);
    var forest := PruneAll(Subforest(nodeMap, children, MaxLen(order), tree, 0));
    return Ok((forest, info + msgs));
  }

  /** What list2tree promises about its result, stated on the input rows:
      the forest holds every wtcode of the rows exactly once and nothing
      else; its roots are in ascending string order and are exactly the
      codes without a dot or whose cut-off code is not a wtcode; every node
      is the coerced last row with its code, and its children are, in
      ascending order, exactly the codes hung under it; no node has an empty
      children field. */
  lemma ListToTreeOutcome(rows: seq<Row>, toInt: string -> int, toReal: string -> real)
    requires AllCoded(rows)
    ensures var codes := set i | 0 <= i < |rows| :: rows[i].wtcode.value;
      && (forall k :: multiset(FlattenAll(TreeOf(rows, toInt, toReal)))[k] == if k in codes then 1 else 0)
      && Ascending(KeysOf(TreeOf(rows, toInt, toReal)))
      && (forall k :: k in KeysOf(TreeOf(rows, toInt, toReal)) <==> k in codes && Parent(k, codes).None?)
      && HungAll(TreeOf(rows, toInt, toReal), PartMap(rows, toInt, toReal), SortStrings(KeyOrder(rows)))
      && NoEmptyChildrenAll(TreeOf(rows, toInt, toReal))
  {
    var nodes, order := PartMap(rows, toInt, toReal), SortStrings(KeyOrder(rows));
    SortedKeys(rows, toInt, toReal);
    PartMapKeys(rows, toInt, toReal);
    forall k ensures multiset(FlattenAll(Forest(nodes, order)))[k] == if k in nodes then 1 else 0 {
      ForestKeysOnce(nodes, order, k);
    }
    ForestRoots(nodes, order);
    ForestHung(nodes, order);
    ForestNoEmptyChildren(nodes, order);
  }
}
