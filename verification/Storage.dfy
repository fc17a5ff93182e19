/** Flattening a storage tree into records with TTLs: findKeys inside GetFromStorage (resolver.go). */
module Storage {
  import opened Bytes
  import opened Options
  import opened WireFields

  /** A node of the tree. Only directories have children. */
  datatype Node = Node(key: Bytes, value: Bytes, dir: bool, nodes: seq<Node>)

  datatype EtcdRecord = EtcdRecord(node: Node, ttl: u32)

  const TTL_SUFFIX: Bytes := [DOT, 't' as int, 't' as int, 'l' as int]

  predicate IsTtl(key: Bytes) {
    |key| >= 4 && key[|key| - 4..] == TTL_SUFFIX
  }

  // ----- numbers in text -----

  function Digits(s: Bytes): (n: nat)
    requires forall i :: 0 <= i < |s| ==> IsDigit(s[i])
  {
    if s == [] then 0
    else
      assert IsDigit(s[|s| - 1]);
      Digits(s[..|s| - 1]) * 10 + (s[|s| - 1] as int - 48)
  }

  /** strconv.ParseUint in base 10 with a bit size: digits only, at least one, and in range. */
  function ParseUint(s: Bytes, limit: nat): (r: Option<nat>)
    ensures r.Some? ==> r.value < limit
  {
    if s == [] || exists i :: 0 <= i < |s| && !IsDigit(s[i]) then None
    else if Digits(s) >= limit then None
    else Some(Digits(s))
  }

  function ParseTtl(s: Bytes): (r: Option<u32>) {
    ParseUint(s, 0x1_0000_0000)
  }

  /** The usual way to write a number. */
  function Decimal(n: nat): (s: Bytes)
    ensures |s| >= 1
  {
    if n < 10 then [48 + n] else Decimal(n / 10) + [48 + n % 10]
  }

  function Zeros(k: nat): (s: Bytes)
    ensures |s| == k && forall i :: 0 <= i < k ==> s[i] == 48
  {
    seq(k, _ => 48)
  }

  /** s is the number n in decimal digits, leading zeros allowed. */
  ghost predicate DecimalText(s: Bytes, n: nat) {
    exists k: nat :: s == Zeros(k) + Decimal(n)
  }

  predicate AllDigits(s: Bytes) {
    forall i :: 0 <= i < |s| ==> IsDigit(s[i])
  }

  lemma {:induction false} ZerosAreDigits(k: nat)
    ensures AllDigits(Zeros(k)) && Digits(Zeros(k)) == 0
  {
    if k > 0 {
      ZerosAreDigits(k - 1);
      assert Zeros(k)[..k - 1] == Zeros(k - 1);
    }
  }

  lemma DigitsSnoc(s: Bytes, d: byte)
    requires AllDigits(s) && IsDigit(d)
    ensures AllDigits(s + [d]) && Digits(s + [d]) == Digits(s) * 10 + (d as int - 48)
  {
    assert (s + [d])[..|s|] == s;
  }

  /** A number that is written is read back, whatever zeros are in front. */
  lemma {:induction false} DecimalRead(k: nat, n: nat)
    ensures AllDigits(Zeros(k) + Decimal(n)) && Digits(Zeros(k) + Decimal(n)) == n
    decreases n
  {
    ZerosAreDigits(k);
    if n < 10 {
      DigitsSnoc(Zeros(k), 48 + n);
    } else {
      DecimalRead(k, n / 10);
      DigitsSnoc(Zeros(k) + Decimal(n / 10), 48 + n % 10);
      assert Zeros(k) + Decimal(n / 10) + [48 + n % 10] == Zeros(k) + Decimal(n);
    }
  }

  /** Any digits are the decimal text of the number they are read as. */
  lemma {:induction false} DigitsAreDecimal(s: Bytes)
    requires s != [] && AllDigits(s)
    ensures DecimalText(s, Digits(s))
    decreases |s|
  {
    var t, d := s[..|s| - 1], s[|s| - 1];
    assert s == t + [d] && IsDigit(d);
    DigitsSnoc(t, d);
    if t == [] {
      assert s == Zeros(0) + Decimal(d - 48);
    } else {
      DigitsAreDecimal(t);
      var k: nat :| t == Zeros(k) + Decimal(Digits(t));
      DecimalSnoc(k, Digits(t), d);
    }
  }

  lemma DecimalSnoc(k: nat, n: nat, d: byte)
    requires IsDigit(d)
    ensures DecimalText(Zeros(k) + Decimal(n) + [d], n * 10 + (d as int - 48))
  {
    var m := n * 10 + (d as int - 48);
    if n == 0 {
      assert Zeros(k) + Decimal(0) + [d] == Zeros(k + 1) + Decimal(m);
    } else {
      assert m / 10 == n && m % 10 == d - 48;
      assert Zeros(k) + Decimal(n) + [d] == Zeros(k) + Decimal(m);
    }
  }

  /** A text is accepted exactly when it is the decimal text of a number below the limit, as that number. */
  lemma ParseIs(s: Bytes, limit: nat, n: nat)
    ensures ParseUint(s, limit) == Some(n) <==> DecimalText(s, n) && n < limit
  {
    hide Digits, Decimal;
    if DecimalText(s, n) {
      var k: nat :| s == Zeros(k) + Decimal(n);
      DecimalRead(k, n);
      assert s != [];
    }
    if s != [] && AllDigits(s) {
      DigitsAreDecimal(s);
    }
  }

  // ----- specification -----

  /** The TTL for a value node whose next sibling has index i: the first that parses before the next value node. */
  function TtlFrom(nodes: seq<Node>, i: nat, defaultTtl: u32): (ttl: u32)
    requires i <= |nodes|
    decreases |nodes| - i
  {
    if i == |nodes| || !IsTtl(nodes[i].key) then defaultTtl
    else
      match ParseTtl(nodes[i].value)
      case Some(ttl) => ttl
      case None => TtlFrom(nodes, i + 1, defaultTtl)
  }

  /** What one node below a directory contributes; a directory makes no use of the TTL beside it. */
  function Records(node: Node, ttl: u32, defaultTtl: u32): (rs: seq<EtcdRecord>)
    decreases node, |node.nodes| + 1
  {
    if node.dir then RecordsFrom(node, 0, defaultTtl)
    else if IsTtl(node.key) then []
    else [EtcdRecord(node, ttl)]
  }

  /** What the children of a directory contribute, from index i on. */
  function RecordsFrom(node: Node, i: nat, defaultTtl: u32): (rs: seq<EtcdRecord>)
    requires i <= |node.nodes|
    decreases node, |node.nodes| - i
  {
    if i == |node.nodes| then []
    else if IsTtl(node.nodes[i].key) then RecordsFrom(node, i + 1, defaultTtl)
    else Records(node.nodes[i], TtlFrom(node.nodes, i + 1, defaultTtl), defaultTtl) + RecordsFrom(node, i + 1, defaultTtl)
  }

  /** The records of the node a key leads to. A leaf has its TTL under the key with ".ttl" behind it; reply is what is found there. */
  function AllRecords(root: Node, reply: Option<Bytes>, defaultTtl: u32): (rs: seq<EtcdRecord>) {
    if root.dir || reply.None? then Records(root, defaultTtl, defaultTtl)
    else
      match ParseTtl(reply.value)
      case None => Records(root, defaultTtl, defaultTtl)
      case Some(ttl) => Records(root, ttl, defaultTtl)
  }

  // ----- the walk as the source runs it -----

  /** What is still to come at child i when the value node last waits for a TTL. */
  function Pending(node: Node, i: nat, last: Option<Node>, defaultTtl: u32): (rs: seq<EtcdRecord>)
    requires i <= |node.nodes|
  {
    (if last.Some? then Records(last.value, TtlFrom(node.nodes, i, defaultTtl), defaultTtl) else [])
    + RecordsFrom(node, i, defaultTtl)
  }

  /** The variables that findKeys captures. */
  class Walker {
    const defaultTtl: u32
    var nodes: seq<EtcdRecord>

    constructor (defaultTtl: u32)
      ensures nodes == [] && this.defaultTtl == defaultTtl
    {
      this.defaultTtl := defaultTtl;
      nodes := [];
    }

    /** reply stands for the answer to the query for the TTL node of a leaf, which is made only when tryTtl is set. */
    method FindKeys(node: Node, ttl: u32, tryTtl: bool, reply: Option<Bytes>)
      modifies this
      ensures !tryTtl ==> nodes == old(nodes) + Records(node, ttl, defaultTtl)
      ensures tryTtl && ttl == defaultTtl ==> nodes == old(nodes) + AllRecords(node, reply, defaultTtl)
      decreases node
    {
      hide IsTtl, ParseTtl;
      var ttl := ttl;
      if node.dir {
        var lastValNode: Option<Node> := None;
        ghost var before := nodes;
        PendingStart(node, defaultTtl);
        for i := 0 to |node.nodes|
          invariant lastValNode.Some? ==> lastValNode.value in node.nodes
          invariant nodes + Pending(node, i, lastValNode, defaultTtl) == before + RecordsFrom(node, 0, defaultTtl)
        {
          var child := node.nodes[i];
          ghost var had := nodes;
          PendingStep(node, i, lastValNode, defaultTtl, had);
          if IsTtl(child.key) {
            var value := ParseTtl(child.value);
            if value.Some? && lastValNode.Some? {
              FindKeys(lastValNode.value, value.value, false, None);
              lastValNode := None;
            }
          } else {
            if lastValNode.Some? {
              FindKeys(lastValNode.value, defaultTtl, false, None);
            }
            lastValNode := Some(child);
          }
        }
        PendingEnd(node, lastValNode, defaultTtl);
        if lastValNode.Some? {
          FindKeys(lastValNode.value, defaultTtl, false, None);
        }
      } else {
        if IsTtl(node.key) {
          assert nodes + [] == nodes;
          return;
        }
        if tryTtl && reply.Some? {
          var value := ParseTtl(reply.value);
          if value.Some? {
            ttl := value.value;
          }
        }
        nodes := nodes + [EtcdRecord(node, ttl)];
      }
    }
  }

  lemma PendingStart(node: Node, defaultTtl: u32)
    ensures Pending(node, 0, None, defaultTtl) == RecordsFrom(node, 0, defaultTtl)
  {
    hide RecordsFrom;
    assert [] + RecordsFrom(node, 0, defaultTtl) == RecordsFrom(node, 0, defaultTtl);
  }

  lemma PendingEnd(node: Node, last: Option<Node>, defaultTtl: u32)
    ensures Pending(node, |node.nodes|, last, defaultTtl) ==
            if last.Some? then Records(last.value, defaultTtl, defaultTtl) else []
  {
    hide Records;
  }

  /** One child further: what had holds and what is to come stay the same together. */
  lemma PendingStep(node: Node, i: nat, last: Option<Node>, defaultTtl: u32, had: seq<EtcdRecord>)
    requires i < |node.nodes|
    ensures var child := node.nodes[i];
            var value := ParseTtl(child.value);
            had + Pending(node, i, last, defaultTtl) ==
            if !IsTtl(child.key) then
              (if last.Some? then had + Records(last.value, defaultTtl, defaultTtl) else had)
              + Pending(node, i + 1, Some(child), defaultTtl)
            else if value.Some? && last.Some? then
              had + Records(last.value, value.value, defaultTtl) + Pending(node, i + 1, None, defaultTtl)
            else had + Pending(node, i + 1, last, defaultTtl)
  {
    hide Records, IsTtl, ParseTtl;
  }

  method GetRecords(root: Node, reply: Option<Bytes>, defaultTtl: u32) returns (rs: seq<EtcdRecord>)
    ensures rs == AllRecords(root, reply, defaultTtl)
  {
    var w := new Walker(defaultTtl);
    w.FindKeys(root, defaultTtl, true, reply);
    assert [] + AllRecords(root, reply, defaultTtl) == AllRecords(root, reply, defaultTtl);
    rs := w.nodes;
  }

  // ----- a key that leads to a single leaf -----

  /** ".ttl" in bytes at the end of the key. */
  predicate TtlKey(key: Bytes) {
    |key| >= 4 && key[|key| - 4] == 46 && key[|key| - 3] == 116 && key[|key| - 2] == 116 && key[|key| - 1] == 108
  }

  lemma IsTtlKey(key: Bytes)
    ensures IsTtl(key) <==> TtlKey(key)
  {
  }

  /**
    A leaf is one record of its own, unless its key ends in ".ttl"; the TTL is the number that stands in decimal under
    the key with ".ttl" behind it, and the default when nothing is found there or no such number below 2^32.
    */
  lemma LeafRecord(root: Node, reply: Option<Bytes>, defaultTtl: u32)
    requires !root.dir
    ensures TtlKey(root.key) ==> AllRecords(root, reply, defaultTtl) == []
    ensures !TtlKey(root.key) ==>
              forall n: nat :: n < 0x1_0000_0000 && reply.Some? && DecimalText(reply.value, n) ==>
                AllRecords(root, reply, defaultTtl) == [EtcdRecord(root, n)]
    ensures !TtlKey(root.key) && (reply.None? || forall n: nat :: n < 0x1_0000_0000 ==> !DecimalText(reply.value, n)) ==>
              AllRecords(root, reply, defaultTtl) == [EtcdRecord(root, defaultTtl)]
  {
    hide DecimalText, IsTtl, TtlKey, ParseUint;
    IsTtlKey(root.key);
    if reply.Some? {
      forall n: nat ensures ParseUint(reply.value, 0x1_0000_0000) == Some(n) <==> DecimalText(reply.value, n) && n < 0x1_0000_0000 {
        ParseIs(reply.value, 0x1_0000_0000, n);
      }
      ParseBelow(reply.value, 0x1_0000_0000);
    }
  }

  lemma ParseBelow(s: Bytes, limit: nat)
    ensures ParseUint(s, limit).Some? ==> ParseUint(s, limit).value < limit
  {
  }

  /** Nodes i to j are TTL nodes without a number that fits. */
  ghost predicate NoTtlIn(nodes: seq<Node>, i: nat, j: nat)
    requires j <= |nodes|
  {
    forall x :: i <= x < j ==> TtlKey(nodes[x].key) && forall n: nat :: n < 0x1_0000_0000 ==> !DecimalText(nodes[x].value, n)
  }

  /** Among siblings, the TTL is that of the first TTL node with a number in front of the next value node, or the default. */
  lemma {:induction false} SiblingTtl(nodes: seq<Node>, i: nat, defaultTtl: u32) returns (j: nat)
    requires i <= |nodes|
    ensures i <= j <= |nodes| && NoTtlIn(nodes, i, j)
    ensures if j < |nodes| && TtlKey(nodes[j].key) then DecimalText(nodes[j].value, TtlFrom(nodes, i, defaultTtl))
            else TtlFrom(nodes, i, defaultTtl) == defaultTtl
    decreases |nodes| - i
  {
    hide DecimalText, TtlKey, IsTtl, ParseUint;
    j := i;
    if i < |nodes| {
      IsTtlKey(nodes[i].key);
      if TtlKey(nodes[i].key) {
        forall n: nat ensures ParseTtl(nodes[i].value) == Some(n) <==> DecimalText(nodes[i].value, n) && n < 0x1_0000_0000 {
          ParseIs(nodes[i].value, 0x1_0000_0000, n);
        }
        if ParseTtl(nodes[i].value).None? {
          j := SiblingTtl(nodes, i + 1, defaultTtl);
        }
      }
    }
  }

  // ----- which leaves, in which order, with which TTL -----

  /** p leads from node to a leaf, by child indices, over nodes whose keys do not end in ".ttl". */
  predicate LeafPath(node: Node, p: seq<nat>)
    decreases |p|
  {
    if p == [] then !node.dir
    else node.dir && p[0] < |node.nodes| && !IsTtl(node.nodes[p[0]].key) && LeafPath(node.nodes[p[0]], p[1..])
  }

  function LeafAt(node: Node, p: seq<nat>): (leaf: Node)
    requires LeafPath(node, p)
    decreases |p|
  {
    if p == [] then node else LeafAt(node.nodes[p[0]], p[1..])
  }

  /** The TTL of the leaf at p: from its own siblings only. */
  function TtlAt(node: Node, p: seq<nat>, defaultTtl: u32): (ttl: u32)
    requires LeafPath(node, p) && p != []
    decreases |p|
  {
    if |p| == 1 then TtlFrom(node.nodes, p[0] + 1, defaultTtl) else TtlAt(node.nodes[p[0]], p[1..], defaultTtl)
  }

  /** Tree order: the order of the first index that differs. */
  predicate Before(p: seq<nat>, q: seq<nat>)
    decreases |p|
  {
    p != [] && q != [] && (p[0] < q[0] || (p[0] == q[0] && Before(p[1..], q[1..])))
  }

  function Under(i: nat, ps: seq<seq<nat>>): (qs: seq<seq<nat>>)
    ensures |qs| == |ps| && forall k :: 0 <= k < |ps| ==> qs[k] == [i] + ps[k]
  {
    seq(|ps|, k requires 0 <= k < |ps| => [i] + ps[k])
  }

  /** The paths to the leaves below node, in the order of the walk. */
  function Paths(node: Node): (ps: seq<seq<nat>>)
    decreases node, |node.nodes| + 1
  {
    if node.dir then PathsFrom(node, 0) else [[]]
  }

  function PathsFrom(node: Node, i: nat): (ps: seq<seq<nat>>)
    requires i <= |node.nodes|
    decreases node, |node.nodes| - i
  {
    if i == |node.nodes| then []
    else (if IsTtl(node.nodes[i].key) then [] else Under(i, Paths(node.nodes[i]))) + PathsFrom(node, i + 1)
  }

  /** rs are the leaves at ps with their TTLs. */
  ghost predicate Matches(node: Node, rs: seq<EtcdRecord>, ps: seq<seq<nat>>, defaultTtl: u32) {
    && |rs| == |ps|
    && forall k :: 0 <= k < |ps| ==>
         && LeafPath(node, ps[k]) && ps[k] != []
         && rs[k] == EtcdRecord(LeafAt(node, ps[k]), TtlAt(node, ps[k], defaultTtl))
  }

  lemma MatchesMore(node: Node, rs: seq<EtcdRecord>, ps: seq<seq<nat>>, rs': seq<EtcdRecord>, ps': seq<seq<nat>>, defaultTtl: u32)
    requires Matches(node, rs, ps, defaultTtl) && Matches(node, rs', ps', defaultTtl)
    ensures Matches(node, rs + rs', ps + ps', defaultTtl)
  {
  }

  /** Child i's leaves are node's, under i. */
  lemma MatchesUnder(node: Node, i: nat, rs: seq<EtcdRecord>, ps: seq<seq<nat>>, defaultTtl: u32)
    requires node.dir && i < |node.nodes| && !IsTtl(node.nodes[i].key)
    requires Matches(node.nodes[i], rs, ps, defaultTtl)
    ensures Matches(node, rs, Under(i, ps), defaultTtl)
  {
    hide IsTtl;
    var qs, child := Under(i, ps), node.nodes[i];
    forall k | 0 <= k < |ps|
      ensures LeafPath(node, qs[k]) && qs[k] != [] && rs[k] == EtcdRecord(LeafAt(node, qs[k]), TtlAt(node, qs[k], defaultTtl))
    {
      assert qs[k][1..] == ps[k];
      assert LeafPath(child, ps[k]);
    }
  }

  lemma MatchesLeaf(node: Node, i: nat, defaultTtl: u32)
    requires node.dir && i < |node.nodes| && !IsTtl(node.nodes[i].key) && !node.nodes[i].dir
    ensures Matches(node, [EtcdRecord(node.nodes[i], TtlFrom(node.nodes, i + 1, defaultTtl))], [[i]], defaultTtl)
  {
    hide IsTtl, TtlFrom;
    var p := [i];
    assert p[1..] == [] && LeafPath(node.nodes[i], []);
    assert LeafPath(node, p) && LeafAt(node, p) == LeafAt(node.nodes[i], []);
  }

  lemma MatchesNothing(node: Node, defaultTtl: u32)
    ensures Matches(node, [], [], defaultTtl)
  {
  }

  lemma OneUnder(i: nat)
    ensures Under(i, [[]]) == [[i]]
  {
    var nothing: seq<nat> := [];
    assert [i] + nothing == [i];
  }

  lemma {:induction false} RecordsMatch(node: Node, i: nat, defaultTtl: u32)
    requires node.dir && i <= |node.nodes|
    ensures Matches(node, RecordsFrom(node, i, defaultTtl), PathsFrom(node, i), defaultTtl)
    decreases node, |node.nodes| - i
  {
    hide Matches, IsTtl, TtlFrom;
    if i == |node.nodes| {
      MatchesNothing(node, defaultTtl);
    } else {
      var child := node.nodes[i];
      RecordsMatch(node, i + 1, defaultTtl);
      if IsTtl(child.key) {
        assert [] + PathsFrom(node, i + 1) == PathsFrom(node, i + 1);
      } else if child.dir {
        RecordsMatch(child, 0, defaultTtl);
        MatchesUnder(node, i, RecordsFrom(child, 0, defaultTtl), PathsFrom(child, 0), defaultTtl);
        MatchesMore(node, RecordsFrom(child, 0, defaultTtl), Under(i, PathsFrom(child, 0)),
                    RecordsFrom(node, i + 1, defaultTtl), PathsFrom(node, i + 1), defaultTtl);
      } else {
        MatchesLeaf(node, i, defaultTtl);
        OneUnder(i);
        MatchesMore(node, [EtcdRecord(child, TtlFrom(node.nodes, i + 1, defaultTtl))], [[i]],
                    RecordsFrom(node, i + 1, defaultTtl), PathsFrom(node, i + 1), defaultTtl);
      }
    }
  }

  lemma InUnder(i: nat, ps: seq<seq<nat>>, p: seq<nat>)
    ensures p in Under(i, ps) <==> p != [] && p[0] == i && p[1..] in ps
  {
    var qs := Under(i, ps);
    if p in qs {
      var k :| 0 <= k < |qs| && qs[k] == p;
      assert p[1..] == ps[k];
    }
    if p != [] && p[0] == i && p[1..] in ps {
      var k :| 0 <= k < |ps| && ps[k] == p[1..];
      assert qs[k] == p;
    }
  }

  /** Every leaf has its path in the list. */
  lemma {:induction false} PathsComplete(node: Node, i: nat, p: seq<nat>)
    requires node.dir && i <= |node.nodes|
    ensures p in PathsFrom(node, i) <==> LeafPath(node, p) && p != [] && p[0] >= i
    decreases node, |node.nodes| - i
  {
    hide IsTtl;
    if i < |node.nodes| {
      var child := node.nodes[i];
      PathsComplete(node, i + 1, p);
      InUnder(i, Paths(child), p);
      if p != [] && child.dir {
        PathsComplete(child, 0, p[1..]);
      }
    }
  }

  /** No path comes before itself. */
  lemma {:induction false} BeforeIsStrict(p: seq<nat>)
    ensures !Before(p, p)
    decreases |p|
  {
    if p != [] {
      BeforeIsStrict(p[1..]);
    }
  }

  predicate Ordered(ps: seq<seq<nat>>) {
    forall a, b :: 0 <= a < b < |ps| ==> Before(ps[a], ps[b])
  }

  lemma UnderOrdered(i: nat, ps: seq<seq<nat>>)
    requires Ordered(ps)
    ensures Ordered(Under(i, ps))
  {
    forall a, b | 0 <= a < b < |ps| ensures Before(Under(i, ps)[a], Under(i, ps)[b]) {
      assert ([i] + ps[a])[1..] == ps[a] && ([i] + ps[b])[1..] == ps[b];
    }
  }

  lemma {:induction false} PathsOrdered(node: Node, i: nat)
    requires node.dir && i <= |node.nodes|
    ensures Ordered(PathsFrom(node, i)) && forall k :: 0 <= k < |PathsFrom(node, i)| ==> PathsFrom(node, i)[k] != [] && PathsFrom(node, i)[k][0] >= i
    decreases node, |node.nodes| - i
  {
    hide IsTtl;
    if i < |node.nodes| {
      var child := node.nodes[i];
      PathsOrdered(node, i + 1);
      if child.dir {
        PathsOrdered(child, 0);
      }
      UnderOrdered(i, Paths(child));
      var us, more := Under(i, Paths(child)), PathsFrom(node, i + 1);
      assert forall a, b :: 0 <= a < |us| && 0 <= b < |more| ==> Before(us[a], more[b]);
    }
  }

  /**
    Main result: below a directory the walk returns every leaf whose path has no component ending in ".ttl", in tree
    order, so each exactly once, with the TTL of the first parseable ".ttl" node between it and the next value node
    beside it, or else the default; and it returns nothing else.
    */
  lemma EveryLeafOnce(root: Node, reply: Option<Bytes>, defaultTtl: u32)
    requires root.dir
    ensures var ps := PathsFrom(root, 0);
            && Matches(root, AllRecords(root, reply, defaultTtl), ps, defaultTtl)
            && (forall p :: p in ps <==> LeafPath(root, p))
            && (forall a, b :: 0 <= a < b < |ps| ==> Before(ps[a], ps[b]) && ps[a] != ps[b])
  {
    hide Matches, Before, IsTtl;
    RecordsMatch(root, 0, defaultTtl);
    PathsOrdered(root, 0);
    var ps := PathsFrom(root, 0);
    forall p ensures p in ps <==> LeafPath(root, p) {
      PathsComplete(root, 0, p);
    }
    forall a, b | 0 <= a < b < |ps| ensures Before(ps[a], ps[b]) && ps[a] != ps[b] {
      BeforeIsStrict(ps[a]);
    }
  }
}
