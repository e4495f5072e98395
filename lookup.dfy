/** Child lookup: hivex_node_children returns the walker's child list, and
    hivex_node_get_child scans it for the first child whose name equals the
    query, ignoring ASCII case. */
module Lookup {
  import opened Results
  import opened Bytes
  import opened HiveStore
  import opened Node
  import opened Walker

  /** The part of a byte string a C string function sees: everything
      before the first NUL. */
  function CString(s: seq<byte>): (c: seq<byte>)
    ensures c <= s && 0 !in c
    ensures |c| < |s| ==> s[|c|] == 0
  {
    if s == [] || s[0] == 0 then [] else [s[0]] + CString(s[1..])
  }

  /** ASCII lower-case folding of one byte; other bytes are unchanged. */
  function ToLower(b: byte): byte
  {
    if Ascii('A') <= b <= Ascii('Z') then b + 32 else b
  }

  function Fold(s: seq<byte>): (f: seq<byte>)
    ensures |f| == |s| && forall i | 0 <= i < |s| :: f[i] == ToLower(s[i])
  {
    seq(|s|, i requires 0 <= i < |s| => ToLower(s[i]))
  }

  /** STRCASEEQ: the two C strings are equal up to ASCII case. */
  predicate CaseEq(a: seq<byte>, b: seq<byte>)
  {
    Fold(CString(a)) == Fold(CString(b))
  }

  /** The decoded names of a child list, in order; a name that fails to
      decode is kept as its error. */
  function NamesOf(h: Hive, kids: seq<nat>): (ns: seq<Result<seq<byte>>>)
    requires Wf(h)
    ensures |ns| == |kids| && forall j | 0 <= j < |kids| :: ns[j] == NodeName(h, kids[j])
  {
    seq(|kids|, j requires 0 <= j < |kids| => NodeName(h, kids[j]))
  }

  /** A decoded name that matches `query` up to case. */
  predicate Hit(name: Result<seq<byte>>, query: seq<byte>)
  {
    name.Ok? && CaseEq(name.value, query)
  }

  /** The scan of hivex_node_get_child over a child list and its names:
      the first child whose name matches, or 0 once the list ends or a
      name fails to decode. */
  function Scan(kids: seq<nat>, names: seq<Result<seq<byte>>>, query: seq<byte>): (r: nat)
    requires |names| == |kids|
    ensures r == 0 || r in kids
  {
    if kids == [] then 0
    else match names[0]
      case Err(_) => 0
      case Ok(name) => if CaseEq(name, query) then kids[0] else Scan(kids[1..], names[1..], query)
  }

  /** Position `i` is where the scan stops with a match: its name matches,
      and every earlier name decodes and does not. */
  ghost predicate FirstHitAt(names: seq<Result<seq<byte>>>, query: seq<byte>, i: int)
  {
    && 0 <= i < |names|
    && Hit(names[i], query)
    && forall j | 0 <= j < i :: names[j].Ok? && !Hit(names[j], query)
  }

  /** Past a name that decodes and does not match, the first match of the
      list is the first match of its tail, one place later. */
  lemma {:induction false} FirstHitShift(names: seq<Result<seq<byte>>>, query: seq<byte>, i: int)
    requires names != [] && names[0].Ok? && !Hit(names[0], query)
    ensures FirstHitAt(names, query, i + 1) <==> FirstHitAt(names[1..], query, i)
  {
    var rest := names[1..];
    if 0 <= i < |rest| {
      assert names[i + 1] == rest[i];
      if FirstHitAt(rest, query, i) {
        forall j | 0 <= j < i + 1 ensures names[j].Ok? && !Hit(names[j], query) {
          if j > 0 {
            assert names[j] == rest[j - 1];
          }
        }
      }
      if FirstHitAt(names, query, i + 1) {
        forall j | 0 <= j < i ensures rest[j].Ok? && !Hit(rest[j], query) {
          assert rest[j] == names[j + 1];
        }
      }
    }
  }

  /** The scan returns the child at the first match, and 0 exactly when no
      name matches before the list ends or a name fails to decode. */
  lemma {:induction false} ScanIsFirstHit(kids: seq<nat>, names: seq<Result<seq<byte>>>, query: seq<byte>)
    requires |names| == |kids| && forall c <- kids :: c != 0
    ensures Scan(kids, names, query) != 0 ==>
      exists i :: FirstHitAt(names, query, i) && kids[i] == Scan(kids, names, query)
    ensures Scan(kids, names, query) == 0 ==> forall i :: !FirstHitAt(names, query, i)
  {
    if kids == [] {
    } else if names[0].Err? {
      forall i ensures !FirstHitAt(names, query, i) {
        if 0 < i < |names| {
          assert names[0].Err?;
        }
      }
    } else if Hit(names[0], query) {
      assert kids[0] in kids;
      assert FirstHitAt(names, query, 0);
    } else {
      assert forall c <- kids[1..] :: c in kids;
      ScanIsFirstHit(kids[1..], names[1..], query);
      if Scan(kids, names, query) != 0 {
        var i :| FirstHitAt(names[1..], query, i) && kids[1..][i] == Scan(kids[1..], names[1..], query);
        FirstHitShift(names, query, i);
      } else {
        forall i ensures !FirstHitAt(names, query, i) {
          if i > 0 {
            FirstHitShift(names, query, i - 1);
          }
        }
      }
    }
  }

  /** Queries that are equal up to ASCII case find the same child. */
  lemma {:induction false} ScanIgnoresCase(kids: seq<nat>, names: seq<Result<seq<byte>>>, q1: seq<byte>, q2: seq<byte>)
    requires |names| == |kids| && Fold(CString(q1)) == Fold(CString(q2))
    ensures Scan(kids, names, q1) == Scan(kids, names, q2)
  {
    if kids != [] {
      ScanIgnoresCase(kids[1..], names[1..], q1, q2);
    }
  }

  /** Looking a child up by its own decoded name finds a child with that
      name up to case, provided no earlier name fails to decode; it finds
      that very child when no earlier name equals it up to case. */
  lemma {:induction false} ScanByOwnName(kids: seq<nat>, names: seq<Result<seq<byte>>>, i: nat)
    requires |names| == |kids| && forall c <- kids :: c != 0
    requires i < |kids| && names[i].Ok? && forall j | 0 <= j < i :: names[j].Ok?
    ensures Scan(kids, names, names[i].value) != 0
    ensures exists f :: 0 <= f <= i && kids[f] == Scan(kids, names, names[i].value) && Hit(names[f], names[i].value)
    ensures (forall j | 0 <= j < i :: !Hit(names[j], names[i].value)) ==>
      Scan(kids, names, names[i].value) == kids[i]
  {
    var q := names[i].value;
    assert Hit(names[i], q);
    var k := 0;
    while !Hit(names[k], q)
      invariant 0 <= k <= i
      invariant forall j | 0 <= j < k :: !Hit(names[j], q)
      decreases i - k
    {
      k := k + 1;
    }
    assert FirstHitAt(names, q, k);
    ScanIsFirstHit(kids, names, q);
    var f :| FirstHitAt(names, q, f) && kids[f] == Scan(kids, names, q);
    assert f == k;
  }

  /** hivex_node_children: the children list of the walk with the nk check
      on; the intermediate blocks are discarded. */
  method NodeChildren(h: Hive, node: nat) returns (r: Result<seq<nat>>)
    requires Wf(h)
    ensures r.Ok? <==> ChildrenOf(h, node, CheckNk).Ok?
    ensures r.Ok? ==> r.value == ChildrenOf(h, node, CheckNk).value.children
    ensures r.Err? ==> r.error == ChildrenOf(h, node, CheckNk).error
    ensures r.Ok? ==>
      && |r.value| == NrSubkeys(h, node)
      && forall c <- r.value :: c != 0 && IsNk(h, c)
  {
    var lists := GetChildren(h, node, CheckNk);
    match lists {
      case Err(e) => return Err(e);
      case Ok(l) => return Ok(l.children);
    }
  }

  /** What hivex_node_get_child returns: 0 when enumeration fails,
      otherwise the result of the scan. */
  function ChildByName(h: Hive, node: nat, query: seq<byte>): (r: nat)
    requires Wf(h)
    ensures r != 0 ==> ChildrenOf(h, node, CheckNk).Ok? && r in ChildrenOf(h, node, CheckNk).value.children
  {
    match ChildrenOf(h, node, CheckNk)
    case Err(_) => 0
    case Ok(l) => Scan(l.children, NamesOf(h, l.children), query)
  }

  /** hivex_node_get_child: a scan of the 0-terminated children array. */
  method GetChild(h: Hive, node: nat, query: seq<byte>) returns (ret: nat)
    requires Wf(h)
    ensures ret == ChildByName(h, node, query)
  {
    ret := 0;
    var res := NodeChildren(h, node);
    if res.Err? {
      return;
    }
    var kids := res.value;
    ghost var names := NamesOf(h, kids);
    var children := kids + [0];
    var i := 0;
    while children[i] != 0
      invariant 0 <= i <= |kids|
      invariant Scan(kids, names, query) == Scan(kids[i..], names[i..], query)
      decreases |kids| - i
    {
      assert kids[i..][0] == children[i] && kids[i..][1..] == kids[i + 1..];
      assert names[i..][0] == NodeName(h, children[i]) && names[i..][1..] == names[i + 1..];
      var name := NodeName(h, children[i]);
      if name.Err? {
        return 0;
      }
      if CaseEq(name.value, query) {
        ret := children[i];
        break;
      }
      i := i + 1;
    }
  }

  /** Lookup ignores case at the level of the public call. */
  lemma GetChildIgnoresCase(h: Hive, node: nat, q1: seq<byte>, q2: seq<byte>)
    requires Wf(h) && Fold(CString(q1)) == Fold(CString(q2))
    ensures ChildByName(h, node, q1) == ChildByName(h, node, q2)
  {
    if ChildrenOf(h, node, CheckNk).Ok? {
      var kids := ChildrenOf(h, node, CheckNk).value.children;
      ScanIgnoresCase(kids, NamesOf(h, kids), q1, q2);
    }
  }

  /** hivex_node_get_child returns the first child, in enumeration order,
      whose name matches; 0 means enumeration failed or no child matched
      before the end of the list or a name that fails to decode. */
  lemma GetChildIsFirstMatch(h: Hive, node: nat, query: seq<byte>)
    requires Wf(h)
    ensures ChildByName(h, node, query) != 0 ==>
      exists i :: FirstHitAt(NamesOf(h, ChildrenOf(h, node, CheckNk).value.children), query, i)
        && ChildrenOf(h, node, CheckNk).value.children[i] == ChildByName(h, node, query)
    ensures ChildByName(h, node, query) == 0 && ChildrenOf(h, node, CheckNk).Ok? ==>
      forall i :: !FirstHitAt(NamesOf(h, ChildrenOf(h, node, CheckNk).value.children), query, i)
  {
    if ChildrenOf(h, node, CheckNk).Ok? {
      var kids := ChildrenOf(h, node, CheckNk).value.children;
      ScanIsFirstHit(kids, NamesOf(h, kids), query);
    }
  }

  /** Looking up the name of the i-th child of a node finds a child of that
      node with that name up to case, when no earlier name fails to decode;
      it finds the i-th child itself when no earlier name equals it. */
  lemma GetChildByOwnName(h: Hive, node: nat, i: nat)
    requires Wf(h) && ChildrenOf(h, node, CheckNk).Ok?
    requires i < |ChildrenOf(h, node, CheckNk).value.children|
    requires NodeName(h, ChildrenOf(h, node, CheckNk).value.children[i]).Ok?
    requires forall j | 0 <= j < i :: NodeName(h, ChildrenOf(h, node, CheckNk).value.children[j]).Ok?
    ensures var kids := ChildrenOf(h, node, CheckNk).value.children;
      var q := NodeName(h, kids[i]).value;
      && ChildByName(h, node, q) in kids
      && Hit(NodeName(h, ChildByName(h, node, q)), q)
      && ((forall j | 0 <= j < i :: !Hit(NodeName(h, kids[j]), q)) ==> ChildByName(h, node, q) == kids[i])
  {
    var kids := ChildrenOf(h, node, CheckNk).value.children;
    var names := NamesOf(h, kids);
    var q := NodeName(h, kids[i]).value;
    assert names[i] == NodeName(h, kids[i]);
    ScanByOwnName(kids, names, i);
    var f :| 0 <= f <= i && kids[f] == Scan(kids, names, q) && Hit(names[f], q);
    assert names[f] == NodeName(h, kids[f]);
  }
}
