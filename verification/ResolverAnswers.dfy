/**
  Answers in terms of what is stored (resolver.go): which keys are read, what a stored value becomes, when an alias is
  the answer, and what the response is then.
  */
module ResolverAnswers {
  import Arith
  import opened Bytes
  import opened Options
  import opened Labels
  import opened Mux
  import opened WireFields
  import opened Records
  import opened Messages
  import opened Resolver
  import Gather
  import Storage

  // ----- keys -----

  /** The last part of a name comes first in its key, behind a slash; empty parts are left out. */
  lemma {:induction false} KeyOfLast(ps: seq<Bytes>, p: Bytes)
    ensures KeyOf([]) == []
    ensures KeyOf(ps + [p]) == (if p == [] then [] else [47] + p) + KeyOf(ps)
    decreases |ps|
  {
    var first := if p == [] then [] else [47] + p;
    if ps == [] {
      assert ps + [p] == [p] && [p][1..] == [];
    } else {
      KeyOfLast(ps[1..], p);
      assert (ps + [p])[1..] == ps[1..] + [p] && (ps + [p])[0] == ps[0];
      Arith.Reassociate(first, KeyOf(ps[1..]), if ps[0] == [] then [] else [47] + ps[0]);
    }
  }

  /** The part in front of the first dot, and then the parts of the rest. */
  lemma {:induction false} PartsCons(a: Bytes, s: Bytes)
    requires 46 !in a
    ensures Parts(a + [46] + s) == [a] + Parts(s)
    decreases |a|
  {
    var t := a + [46] + s;
    if a == [] {
      assert t == [46] + s && t[1..] == s;
    } else {
      assert t[0] == a[0] && t[1..] == a[1..] + [46] + s;
      PartsCons(a[1..], s);
      assert [a[0]] + a[1..] == a;
    }
  }

  lemma {:induction false} PartsOne(a: Bytes)
    requires 46 !in a
    ensures Parts(a) == [a]
    decreases |a|
  {
    if a != [] {
      PartsOne(a[1..]);
      assert [a[0]] + a[1..] == a;
    }
  }

  /** The node for a type stands under the type's name behind a dot. */
  lemma TypeNames()
    ensures TypeName(1) == "A" && TypeName(2) == "NS" && TypeName(5) == "CNAME" && TypeName(6) == "SOA"
    ensures TypeName(12) == "PTR" && TypeName(16) == "TXT" && TypeName(28) == "AAAA" && TypeName(33) == "SRV"
    ensures forall t: u16 :: t in CONVERTED <==> t in {1, 2, 5, 6, 12, 16, 28, 33}
  {
  }

  lemma KeyOfThree(a: Bytes, b: Bytes, c: Bytes)
    requires a != [] && b != [] && c != [] && 46 !in a && 46 !in b && 46 !in c
    ensures KeyOf(Parts(a + [46] + (b + [46] + (c + [46])))) == [47] + c + ([47] + b + ([47] + a))
  {
    hide KeyOf, Parts;
    var none: Bytes := [];
    PartsOne(none);
    assert c + [46] == c + [46] + none;
    PartsCons(c, none);
    PartsCons(b, c + [46]);
    PartsCons(a, b + [46] + (c + [46]));
    assert [a] + ([b] + ([c] + [none])) == [] + [a] + [b] + [c] + [none];
    KeyOfLast([], a);
    KeyOfLast([] + [a], b);
    KeyOfLast([] + [a] + [b], c);
    KeyOfLast([] + [a] + [b] + [c], none);
    assert [47] + a + [] == [47] + a;
    assert [] + ([47] + c + ([47] + b + ([47] + a))) == [47] + c + ([47] + b + ([47] + a));
  }

  /** The key of www.foo.net., written in any case: /net/foo/www and then /.A for addresses. */
  lemma KeyExample(store: Store, name: Bytes)
    requires SameButCase(name, [119, 119, 119, 46, 102, 111, 111, 46, 110, 101, 116, 46])
    ensures RecordKey(store, name, 1) == store.prefix + Ascii("/net/foo/www/.A")
  {
    hide KeyOf, Parts, Lower, SameLetter;
    var www, foo, net: Bytes := [119, 119, 119], [102, 111, 111], [110, 101, 116];
    var lower: Bytes := www + [46] + (foo + [46] + (net + [46]));
    assert lower == [119, 119, 119, 46, 102, 111, 111, 46, 110, 101, 116, 46];
    LowerIs(name, lower);
    LowerIs(lower, lower);
    KeyOfThree(www, foo, net);
    assert [47] + net + ([47] + foo + ([47] + www)) + ([47, 46] + Ascii("A")) == Ascii("/net/foo/www/.A");
  }

  // ----- stored values -----

  function JoinTabs(parts: seq<Bytes>): (s: Bytes)
    requires |parts| >= 1
  {
    if |parts| == 1 then parts[0] else parts[0] + [9] + JoinTabs(parts[1..])
  }

  lemma FirstTabIs(a: Bytes, s: Bytes)
    requires 9 !in a
    ensures FirstTab(a + [9] + s) == |a| && FirstTab(a) == |a|
  {
    var t := a + [9] + s;
    FirstTabBounds(t);
    FirstTabBounds(a);
    hide FirstTab;
    assert t[|a|] == 9;
    forall i | 0 <= i < FirstTab(t) ensures t[i] != 9 {
      assert t[i] == t[..FirstTab(t)][i];
    }
    assert forall i :: 0 <= i < |a| ==> t[i] == a[i] && a[i] in a;
  }

  lemma JoinCons(a: Bytes, rest: seq<Bytes>)
    requires |rest| >= 1
    ensures JoinTabs([a] + rest) == a + [9] + JoinTabs(rest)
  {
    assert ([a] + rest)[1..] == rest;
  }

  lemma SplitCons(a: Bytes, s: Bytes, n: nat)
    requires n > 1 && 9 !in a
    ensures SplitTabs(a + [9] + s, n) == [a] + SplitTabs(s, n - 1)
  {
    FirstTabIs(a, s);
    hide FirstTab;
    var t := a + [9] + s;
    assert t[..|a|] == a && t[|a| + 1..] == s;
  }

  lemma SplitLast(s: Bytes)
    ensures SplitTabs(s, 1) == [s] && JoinTabs([s]) == s
  {
  }

  /** Parts between tabs are found again; only the last may have tabs. */
  lemma {:induction false} SplitJoined(parts: seq<Bytes>, n: nat)
    requires 1 <= |parts| == n && forall i :: 0 <= i < n - 1 ==> 9 !in parts[i]
    ensures SplitTabs(JoinTabs(parts), n) == parts
    decreases n
  {
    hide SplitTabs, JoinTabs;
    if n == 1 {
      SplitLast(parts[0]);
      assert parts == [parts[0]];
    } else {
      var a, rest := parts[0], parts[1..];
      assert parts == [a] + rest && 9 !in a;
      forall i | 0 <= i < n - 2 ensures 9 !in rest[i] {
        assert rest[i] == parts[i + 1];
      }
      JoinCons(a, rest);
      SplitCons(a, JoinTabs(rest), n);
      SplitJoined(rest, n - 1);
    }
  }

  lemma FirstTabBounds(s: Bytes)
    ensures FirstTab(s) <= |s| && 9 !in s[..FirstTab(s)] && (FirstTab(s) < |s| ==> s[FirstTab(s)] == 9)
  {
  }

  /** What is split are the parts between tabs. */
  lemma {:induction false} SplitIsJoined(s: Bytes, n: nat)
    requires n >= 1
    ensures JoinTabs(SplitTabs(s, n)) == s
    decreases n
  {
    hide FirstTab, JoinTabs;
    FirstTabBounds(s);
    SplitLast(s);
    var k := FirstTab(s);
    if n > 1 && k < |s| {
      SplitIsJoined(s[k + 1..], n - 1);
      JoinCons(s[..k], SplitTabs(s[k + 1..], n - 1));
      assert s == s[..k] + [9] + s[k + 1..];
    }
  }

  lemma NoTabInDecimal(s: Bytes, n: nat)
    requires Storage.DecimalText(s, n)
    ensures 9 !in s
  {
    var k: nat :| s == Storage.Zeros(k) + Storage.Decimal(n);
    Storage.DecimalRead(k, n);
  }

  /** An SRV value: priority, weight and port in decimal and the target, with tabs between them. */
  lemma SrvValue(p: Parsers, a: Bytes, b: Bytes, c: Bytes, target: Bytes, priority: u16, weight: u16, port: u16)
    requires Storage.DecimalText(a, priority) && Storage.DecimalText(b, weight) && Storage.DecimalText(c, port)
    ensures Convert(p, 33, JoinTabs([a, b, c, target])) == Some(SRV(priority, weight, port, Fqdn(target)))
  {
    hide Storage.ParseUint, SplitTabs, JoinTabs, Fqdn, Storage.DecimalText;
    NoTabInDecimal(a, priority);
    NoTabInDecimal(b, weight);
    NoTabInDecimal(c, port);
    SplitJoined([a, b, c, target], 4);
    Storage.ParseIs(a, 0x1_0000, priority);
    Storage.ParseIs(b, 0x1_0000, weight);
    Storage.ParseIs(c, 0x1_0000, port);
  }

  /** No other value becomes an SRV record. */
  lemma SrvOnly(p: Parsers, value: Bytes) returns (a: Bytes, b: Bytes, c: Bytes, target: Bytes)
    requires Convert(p, 33, value).Some?
    ensures var d := Convert(p, 33, value).value;
            && d.SRV? && value == JoinTabs([a, b, c, target])
            && Storage.DecimalText(a, d.priority) && Storage.DecimalText(b, d.weight) && Storage.DecimalText(c, d.port)
  {
    hide Storage.ParseUint, SplitTabs, JoinTabs, Fqdn, Storage.DecimalText;
    var parts, d := SplitTabs(value, 4), Convert(p, 33, value).value;
    SplitIsJoined(value, 4);
    a, b, c, target := parts[0], parts[1], parts[2], parts[3];
    assert parts == [a, b, c, target];
    Storage.ParseIs(a, 0x1_0000, d.priority);
    Storage.ParseIs(b, 0x1_0000, d.weight);
    Storage.ParseIs(c, 0x1_0000, d.port);
  }

  /** An SOA value: name server, mailbox, and the four intervals in decimal; the serial comes later. */
  lemma SoaValue(p: Parsers, ns: Bytes, mbox: Bytes, a: Bytes, b: Bytes, c: Bytes, d: Bytes,
                 refresh: u32, retry: u32, expire: u32, minttl: u32)
    requires 9 !in ns && 9 !in mbox
    requires Storage.DecimalText(a, refresh) && Storage.DecimalText(b, retry)
    requires Storage.DecimalText(c, expire) && Storage.DecimalText(d, minttl)
    ensures Convert(p, 6, JoinTabs([ns, mbox, a, b, c, d])) == Some(SOA(Fqdn(ns), Fqdn(mbox), 0, refresh, retry, expire, minttl))
  {
    hide Storage.ParseUint, SplitTabs, JoinTabs, Fqdn, Storage.DecimalText;
    NoTabInDecimal(a, refresh);
    NoTabInDecimal(b, retry);
    NoTabInDecimal(c, expire);
    SplitJoined([ns, mbox, a, b, c, d], 6);
    Storage.ParseIs(a, 0x1_0000_0000, refresh);
    Storage.ParseIs(b, 0x1_0000_0000, retry);
    Storage.ParseIs(c, 0x1_0000_0000, expire);
    Storage.ParseIs(d, 0x1_0000_0000, minttl);
  }

  /** No other value becomes an SOA record. */
  lemma SoaOnly(p: Parsers, value: Bytes) returns (parts: seq<Bytes>)
    requires Convert(p, 6, value).Some?
    ensures var d := Convert(p, 6, value).value;
            && d.SOA? && |parts| == 6 && value == JoinTabs(parts)
            && Storage.DecimalText(parts[2], d.refresh) && Storage.DecimalText(parts[3], d.retry)
            && Storage.DecimalText(parts[4], d.expire) && Storage.DecimalText(parts[5], d.minttl)
  {
    hide Storage.ParseUint, SplitTabs, JoinTabs, Fqdn, Storage.DecimalText;
    var d := Convert(p, 6, value).value;
    parts := SplitTabs(value, 6);
    SplitIsJoined(value, 6);
    SplitAtMost(value, 6);
    Storage.ParseIs(parts[2], 0x1_0000_0000, d.refresh);
    Storage.ParseIs(parts[3], 0x1_0000_0000, d.retry);
    Storage.ParseIs(parts[4], 0x1_0000_0000, d.expire);
    Storage.ParseIs(parts[5], 0x1_0000_0000, d.minttl);
  }

  lemma SplitAtMost(s: Bytes, n: nat)
    requires n >= 1
    ensures 1 <= |SplitTabs(s, n)| <= n
  {
  }

  /** The other types: an address as it is parsed, one text, or one name with its closing dot. */
  lemma OtherValues(p: Parsers, value: Bytes)
    ensures Convert(p, 16, value) == Some(TXT([value]))
    ensures Convert(p, 5, value) == Some(CNAME(Fqdn(value))) && Convert(p, 2, value) == Some(NS(Fqdn(value)))
    ensures Convert(p, 12, value) == if p.isName(value) then Some(PTR(Fqdn(value))) else None
    ensures forall ip :: Convert(p, 1, value) == Some(A(ip)) <==> p.ip4(value) == Some(ip)
    ensures forall ip :: Convert(p, 28, value) == Some(AAAA(ip)) <==> p.ip6(value) == Some(ip)
  {
  }

  /** A typed answer has one record for every stored node, in order: the name asked for, the node's TTL and its value. */
  lemma {:induction false} OneForEachNode(p: Parsers, name: Bytes, t: u16, nodes: seq<Storage.EtcdRecord>)
    requires t in CONVERTED
    ensures var r := ConvertAll(p, name, t, nodes);
            && (r.Answers? <==> forall i :: 0 <= i < |nodes| ==> Convert(p, t, nodes[i].node.value).Some?)
            && (r.Failed? ==> r.error == ConversionError)
            && (r.Answers? ==> |r.records| == |nodes| && forall i :: 0 <= i < |nodes| ==>
                  && Convert(p, t, nodes[i].node.value).Some?
                  && r.records[i] == Record(Header(name, t, 1, nodes[i].ttl, 0), Convert(p, t, nodes[i].node.value).value))
    decreases |nodes|
  {
    hide Convert;
    if nodes != [] {
      OneForEachNode(p, name, t, nodes[1..]);
      assert nodes == [nodes[0]] + nodes[1..];
    }
  }

  /** A lookup of one type: nothing stored means no records, storage that fails is an error. */
  lemma LookupCases(store: Store, name: Bytes, t: u16)
    requires t in {1, 2, 5, 6, 12, 16, 28, 33}
    ensures var reply := store.get(RecordKey(store, name, t));
            && (reply == NoKey ==> TypedAnswers(store, name, t) == Answers([]))
            && (reply == Unavailable ==> TypedAnswers(store, name, t) == Failed(StorageError))
  {
    hide ConvertAll, NodesOf, RecordKey;
  }

  /**
    A single leaf behind the key is one record with the lower-cased name; its TTL is the number stored in decimal under
    the leaf's key with ".ttl" behind it, or the default.
    */
  lemma StoredLeaf(store: Store, name: Bytes, t: u16, root: Storage.Node, d: Data, ttl: u32)
    requires t in {1, 2, 5, 6, 12, 16, 28, 33} && store.get(RecordKey(store, name, t)) == GetReply.Found(root)
    requires !root.dir && !Storage.TtlKey(root.key) && Convert(store.parsers, t, root.value) == Some(d)
    requires var reply := store.getTtl(root.key + [46, 116, 116, 108]);
             if reply.Some? && exists n: nat :: n < 0x1_0000_0000 && Storage.DecimalText(reply.value, n)
             then Storage.DecimalText(reply.value, ttl) else ttl == store.defaultTtl
    ensures TypedAnswers(store, name, t) == Answers([Record(Header(Lower(name), t, 1, ttl, 0), d)])
  {
    hide Convert, RecordKey, Lower, Storage.DecimalText, Storage.TtlKey, Storage.AllRecords, ConvertAll;
    Storage.LeafRecord(root, store.getTtl(root.key + [46, 116, 116, 108]), store.defaultTtl);
    var nodes := [Storage.EtcdRecord(root, ttl)];
    assert NodesOf(store, root) == nodes;
    OneForEachNode(store.parsers, Lower(name), t, nodes);
  }

  // ----- when an alias is the answer -----

  /**
    For a type with a converter: its own records if there are any, or else the one alias. A failed lookup of either is
    the one error, and so are several aliases.
    */
  lemma SingleAnswers(store: Store, q: Question)
    requires q.qtype in {1, 2, 5, 6, 12, 16, 28, 33}
    ensures var own, aliases := TypedAnswers(store, q.name, q.qtype), TypedAnswers(store, q.name, 5);
            var rs, es := AnswersTo(store, q), ErrorsOf(store, q);
            && (own.Failed? ==> rs == [] && es == [own.error])
            && (own.Answers? && own.records != [] ==> rs == own.records && es == [])
            && (own == Answers([]) && aliases.Failed? ==> rs == [] && es == [aliases.error])
            && (own == Answers([]) && aliases.Answers? && |aliases.records| <= 1 ==> rs == aliases.records && es == [])
            && (own == Answers([]) && aliases.Answers? && |aliases.records| > 1 ==> rs == [] && es == [MultipleCnames])
  {
    hide TypedAnswers, AllAnswers, AllErrors, Items;
    ItemsOf(SingleType(store, q.name, q.qtype));
  }

  function RecordsIn(r: Answers): (rs: seq<Record>) {
    if r.Answers? then r.records else []
  }

  function ErrorsIn(r: Answers): (es: seq<Error>) {
    if r.Failed? then [r.error] else []
  }

  lemma WorkCons(items: seq<Item>, work: seq<seq<Item>>)
    ensures AllAnswers([items] + work) == Gather.AnswersIn(items) + AllAnswers(work)
    ensures AllErrors([items] + work) == Gather.ErrorsIn(items) + AllErrors(work)
  {
    assert ([items] + work)[1..] == work;
  }

  lemma OneItems(r: Answers)
    ensures Gather.AnswersIn(Items(r)) == RecordsIn(r) && Gather.ErrorsIn(Items(r)) == ErrorsIn(r)
  {
    hide Items;
    ItemsOf(r);
    WorkCons(Items(r), []);
    assert [Items(r)] + [] == [Items(r)];
    NothingToDo();
    assert Gather.AnswersIn(Items(r)) + [] == Gather.AnswersIn(Items(r));
    assert Gather.ErrorsIn(Items(r)) + [] == Gather.ErrorsIn(Items(r));
  }

  lemma NothingToDo()
    ensures AllAnswers([]) == [] && AllErrors([]) == []
  {
  }

  /** The work for ANY, from the i-th type on. */
  function WorkFrom(store: Store, name: Bytes, types: seq<u16>): (work: seq<seq<Item>>)
    requires forall i :: 0 <= i < |types| ==> types[i] in CONVERTED
  {
    if types == [] then [] else [Items(TypedAnswers(store, name, types[0]))] + WorkFrom(store, name, types[1..])
  }

  function RecordsOfAll(store: Store, name: Bytes, types: seq<u16>): (rs: seq<Record>)
    requires forall i :: 0 <= i < |types| ==> types[i] in CONVERTED
  {
    if types == [] then [] else RecordsIn(TypedAnswers(store, name, types[0])) + RecordsOfAll(store, name, types[1..])
  }

  function ErrorsOfAll(store: Store, name: Bytes, types: seq<u16>): (es: seq<Error>)
    requires forall i :: 0 <= i < |types| ==> types[i] in CONVERTED
  {
    if types == [] then [] else ErrorsIn(TypedAnswers(store, name, types[0])) + ErrorsOfAll(store, name, types[1..])
  }

  lemma {:induction false} WorkOfAll(store: Store, name: Bytes, types: seq<u16>)
    requires forall i :: 0 <= i < |types| ==> types[i] in CONVERTED
    ensures var work := WorkFrom(store, name, types);
            && AllAnswers(work) == RecordsOfAll(store, name, types) && AllErrors(work) == ErrorsOfAll(store, name, types)
            && |work| == |types| && forall i :: 0 <= i < |types| ==> work[i] == Items(TypedAnswers(store, name, types[i]))
    decreases |types|
  {
    hide TypedAnswers, AllAnswers, AllErrors, Items, RecordsIn, ErrorsIn;
    NothingToDo();
    if types != [] {
      WorkOfAll(store, name, types[1..]);
      OneItems(TypedAnswers(store, name, types[0]));
      WorkCons(Items(TypedAnswers(store, name, types[0])), WorkFrom(store, name, types[1..]));
    }
  }

  /** For ANY, the records of all eight types that can be looked up, and the errors of those that cannot; for other types nothing. */
  lemma AnyAnswers(store: Store, q: Question)
    requires q.qtype !in {1, 2, 5, 6, 12, 16, 28, 33}
    ensures q.qtype == 255 ==>
              && AnswersTo(store, q) == RecordsOfAll(store, q.name, [1, 28, 16, 5, 2, 12, 33, 6])
              && ErrorsOf(store, q) == ErrorsOfAll(store, q.name, [1, 28, 16, 5, 2, 12, 33, 6])
    ensures q.qtype != 255 ==> AnswersTo(store, q) == [] && ErrorsOf(store, q) == []
  {
    hide TypedAnswers, AllAnswers, AllErrors, Items, RecordsOfAll, ErrorsOfAll;
    if q.qtype == 255 {
      WorkOfAll(store, q.name, CONVERTED);
      assert Work(store, q) == WorkFrom(store, q.name, CONVERTED);
    } else {
      NothingToDo();
    }
  }

  // ----- the response -----

  /**
    A question of class IN that has no records of its own but one alias is answered with that alias under the name
    asked for; with several aliases the server fails.
    */
  lemma AliasResponse(store: Store, req: Message, serial: u32, m: Message, rrs: seq<Record>)
    requires req.question != [] && Responds(store, req, serial, m, rrs)
    requires var q := req.question[0];
             && q.qclass == 1 && q.qtype in {1, 2, 6, 12, 16, 28, 33} && TypedAnswers(store, q.name, q.qtype) == Answers([])
             && TypedAnswers(store, q.name, 5).Answers?
    ensures var q := req.question[0];
            var aliases := TypedAnswers(store, q.name, 5).records;
            && (|aliases| == 1 ==> m.rcode == 0 && m.answer == [aliases[0].(hdr := aliases[0].hdr.(name := q.name))])
            && (|aliases| > 1 ==> m.rcode == 2 && m.answer == [])
  {
    hide TypedAnswers, AnswersTo, ErrorsOf, Wildcards, Parts, AuthorityFrom;
    var q := req.question[0];
    var qs := Candidates(q);
    SingleAnswers(store, q);
    assert qs[0] == q;
    if |TypedAnswers(store, q.name, 5).records| == 1 {
      assert FirstAnswered(store, qs, 0) == 0;
      assert !Errored(store, qs);
      OneOf(rrs, TypedAnswers(store, q.name, 5).records[0]);
    } else if |TypedAnswers(store, q.name, 5).records| > 1 {
      assert Errored(store, qs);
    }
  }

  lemma OneOf<T>(s: seq<T>, x: T)
    requires multiset(s) == multiset([x])
    ensures s == [x]
  {
    assert |multiset(s)| == |s| == 1 && s[0] in multiset(s);
  }

  /** A wildcard is a star, a dot and the rest of the name with its closing dot. */
  lemma WildcardIs(domain: Bytes)
    ensures WildcardName(domain) == if domain != [] && domain[|domain| - 1] == 46 then [42, 46] + domain else [42, 46] + domain + [46]
  {
    assert [42, 46] + (domain + [46]) == [42, 46] + domain + [46];
  }

  /** A name of three labels has four parts, and these are the domains behind its dots. */
  lemma ThreeParts(a: Bytes, b: Bytes, c: Bytes, cd: Bytes, bcd: Bytes)
    requires 46 !in a && 46 !in b && 46 !in c && cd == c + [46] && bcd == b + [46] + cd
    ensures var parts := Parts(a + [46] + bcd);
            && |parts| == 4 && Dotted(parts[1..]) == bcd && Dotted(parts[2..]) == cd && Dotted(parts[3..]) == []
  {
    hide Dotted, Parts;
    var none: Bytes := [];
    PartsOne(none);
    assert cd == c + [46] + none;
    PartsCons(c, none);
    PartsCons(b, cd);
    PartsCons(a, bcd);
    var parts := [a] + ([b] + ([c] + [none]));
    assert parts[1..] == [b] + ([c] + [none]) && parts[2..] == [c] + [none] && parts[3..] == [none];
    DottedOne(none);
    DottedCons(c, [none]);
    DottedCons(b, [c] + [none]);
  }

  /** Answers to a.b.c. are sought at a.b.c., *.b.c. and *.c., in this order; other classes than IN only by wildcards. */
  lemma QuestionsTried(q: Question, a: Bytes, b: Bytes, c: Bytes, cd: Bytes, bcd: Bytes)
    requires c != [] && 46 !in a && 46 !in b && 46 !in c && cd == c + [46] && bcd == b + [46] + cd
    requires q.name == a + [46] + bcd
    ensures var wild := [q.(name := [42, 46] + bcd), q.(name := [42, 46] + cd)];
            Candidates(q) == if q.qclass == 1 then [q] + wild else wild
  {
    hide Dotted, Wildcards, Parts, WildcardName;
    ThreeParts(a, b, c, cd, bcd);
    var parts := Parts(q.name);
    WildcardIs(bcd);
    WildcardIs(cd);
    NoWildcards(q, parts);
    WildcardsStep(q, parts, 3);
    WildcardsStep(q, parts, 2);
    WildcardsStep(q, parts, 1);
    assert Wildcards(q, parts, 1) == [q.(name := [42, 46] + bcd), q.(name := [42, 46] + cd)];
  }
}
