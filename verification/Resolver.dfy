/**
  Answering questions from storage (resolver.go): keys, record lookup, the producers of AnswerQuestion, the search for
  the closest wildcard and for the authority, and the response.

  The storage is a fixed map while a query is answered. Parsing of addresses and names in stored values, and
  the time that becomes an SOA's serial, are parameters.
  */
module Resolver {
  import Arith
  import opened Bytes
  import opened Options
  import opened Labels
  import opened Mux
  import opened WireFields
  import opened Records
  import opened Messages
  import Gather
  import Storage

  // ----- names and keys -----

  /** strings.Split by dots: escapes mean nothing here, and the empty name has one empty part. */
  function Parts(s: Bytes): (ps: seq<Bytes>)
    ensures |ps| >= 1
    decreases |s|
  {
    if s == [] then [[]]
    else if s[0] == DOT then [[]] + Parts(s[1..])
    else
      var rest := Parts(s[1..]);
      [[s[0]] + rest[0]] + rest[1..]
  }

  /** strings.Join with dots. */
  function Dotted(ps: seq<Bytes>): (s: Bytes)
    requires |ps| >= 1
  {
    if |ps| == 1 then ps[0] else ps[0] + [DOT] + Dotted(ps[1..])
  }

  /** Segments after slashes, last part of the name first, empty parts left out. */
  function KeyOf(parts: seq<Bytes>): (key: Bytes) {
    if parts == [] then []
    else KeyOf(parts[1..]) + (if parts[0] == [] then [] else ['/' as int] + parts[0])
  }

  method NameToKey(name: Bytes, suffix: Bytes) returns (key: Bytes)
    ensures key == KeyOf(Parts(name)) + suffix
  {
    var segments := Parts(name);
    key := [];
    var i := |segments|;
    while i > 0
      invariant 0 <= i <= |segments|
      invariant key == KeyOf(segments[i..])
    {
      i := i - 1;
      assert segments[i..][0] == segments[i] && segments[i..][1..] == segments[i + 1..];
      if |segments[i]| > 0 {
        key := key + ['/' as int];
        key := key + segments[i];
      }
    }
    assert segments[0..] == segments;
    key := key + suffix;
  }

  // ----- record types -----

  const TYPE_CNAME: u16 := 5
  const TYPE_SOA: u16 := 6
  const TYPE_ANY: u16 := 255
  const RCODE_SERVER_FAILURE := 2
  const RCODE_NAME_ERROR := 3

  /** The types that have a converter. */
  const CONVERTED: seq<u16> := [1, 28, 16, TYPE_CNAME, 2, 12, 33, TYPE_SOA]

  function TypeName(t: u16): (s: string) {
    if t == 1 then "A" else if t == 28 then "AAAA" else if t == 16 then "TXT" else if t == TYPE_CNAME then "CNAME"
    else if t == 2 then "NS" else if t == 12 then "PTR" else if t == 33 then "SRV" else "SOA"
  }

  function Ascii(s: string): (b: Bytes)
    requires forall i :: 0 <= i < |s| ==> s[i] as int < 128
    ensures |b| == |s|
  {
    seq(|s|, i requires 0 <= i < |s| => s[i] as int)
  }

  /** What addresses stored as text mean, and whether a stored name is good. */
  datatype Parsers = Parsers(ip4: Bytes -> Option<Bytes>, ip6: Bytes -> Option<Bytes>, isName: Bytes -> bool)

  /** strings.SplitN by tabs: at most n parts, the last with the tabs that are left. */
  function SplitTabs(s: Bytes, n: nat): (parts: seq<Bytes>)
    requires n >= 1
    ensures 1 <= |parts| <= n
  {
    var k := FirstTab(s);
    if n == 1 || k == |s| then [s] else [s[..k]] + SplitTabs(s[k + 1..], n - 1)
  }

  /** The index of the first tab, or the length. */
  function FirstTab(s: Bytes): (k: nat)
    ensures k <= |s| && TAB !in s[..k] && (k < |s| ==> s[k] == TAB)
  {
    if s == [] || s[0] == TAB then 0
    else
      var k := 1 + FirstTab(s[1..]);
      assert s[..k] == [s[0]] + s[1..][..k - 1];
      k
  }

  function ConvertSrv(value: Bytes): (d: Option<Data>)
    ensures d.Some? ==> d.value.SRV?
  {
    var parts := SplitTabs(value, 4);
    if |parts| != 4 then None
    else
      match (Storage.ParseUint(parts[0], 0x1_0000), Storage.ParseUint(parts[1], 0x1_0000), Storage.ParseUint(parts[2], 0x1_0000))
      case (Some(priority), Some(weight), Some(port)) => Some(SRV(priority, weight, port, Fqdn(parts[3])))
      case _ => None
  }

  /** An SOA has no serial yet. */
  function ConvertSoa(value: Bytes): (d: Option<Data>)
    ensures d.Some? ==> d.value.SOA?
  {
    var parts := SplitTabs(value, 6);
    if |parts| < 6 then None
    else
      match (Storage.ParseUint(parts[2], 0x1_0000_0000), Storage.ParseUint(parts[3], 0x1_0000_0000),
             Storage.ParseUint(parts[4], 0x1_0000_0000), Storage.ParseUint(parts[5], 0x1_0000_0000))
      case (Some(refresh), Some(retry), Some(expire), Some(minttl)) =>
        Some(SOA(Fqdn(parts[0]), Fqdn(parts[1]), 0, refresh, retry, expire, minttl))
      case _ => None
  }

  datatype GetReply = Found(root: Storage.Node) | NoKey | Unavailable

  /** get is a recursive get of a key; getTtl a plain get of a TTL node's value. */
  datatype Store = Store(get: Bytes -> GetReply, getTtl: Bytes -> Option<Bytes>, prefix: Bytes, defaultTtl: u32, parsers: Parsers)

  /** The converter for a type; None is a conversion error. */
  function Convert(p: Parsers, t: u16, value: Bytes): (d: Option<Data>)
    requires t in CONVERTED
    ensures d.Some? ==> TypeOf(d.value) == t
  {
    if t == 1 then (match p.ip4(value) case None => None case Some(ip) => Some(A(ip)))
    else if t == 28 then (match p.ip6(value) case None => None case Some(ip) => Some(AAAA(ip)))
    else if t == 16 then Some(TXT([value]))
    else if t == TYPE_CNAME then Some(CNAME(Fqdn(value)))
    else if t == 2 then Some(NS(Fqdn(value)))
    else if t == 12 then if p.isName(value) then Some(PTR(Fqdn(value))) else None
    else if t == 33 then ConvertSrv(value)
    else ConvertSoa(value)
  }

  datatype Error = StorageError | ConversionError | MultipleCnames

  datatype Answers = Answers(records: seq<Record>) | Failed(error: Error)

  function ConvertAll(p: Parsers, name: Bytes, t: u16, nodes: seq<Storage.EtcdRecord>): (r: Answers)
    requires t in CONVERTED
  {
    if nodes == [] then Answers([])
    else
      match Convert(p, t, nodes[0].node.value)
      case None => Failed(ConversionError)
      case Some(d) =>
        match ConvertAll(p, name, t, nodes[1..])
        case Failed(e) => Failed(e)
        case Answers(rs) => Answers([Record(Header(name, t, CLASS_INET, nodes[0].ttl, 0), d)] + rs)
  }

  function RecordKey(store: Store, name: Bytes, t: u16): (key: Bytes) {
    store.prefix + (KeyOf(Parts(Lower(name))) + ([ '/' as int, DOT] + Ascii(TypeName(t))))
  }

  /** The nodes behind a key, flattened. */
  function NodesOf(store: Store, root: Storage.Node): (rs: seq<Storage.EtcdRecord>) {
    Storage.AllRecords(root, store.getTtl(root.key + Storage.TTL_SUFFIX), store.defaultTtl)
  }

  /** LookupAnswersForType: a key that is not there means no answers. */
  function TypedAnswers(store: Store, name: Bytes, t: u16): (r: Answers)
    requires t in CONVERTED
  {
    match store.get(RecordKey(store, name, t))
    case NoKey => Answers([])
    case Unavailable => Failed(StorageError)
    case Found(root) => ConvertAll(store.parsers, Lower(name), t, NodesOf(store, root))
  }

  method LookupAnswersForType(store: Store, name0: Bytes, t: u16) returns (r: Answers)
    requires t in CONVERTED
    ensures r == TypedAnswers(store, name0, t)
  {
    hide Convert;
    var name := Lower(name0);
    var key := NameToKey(name, ['/' as int, DOT] + Ascii(TypeName(t)));
    var reply := store.get(store.prefix + key);
    if reply.NoKey? {
      return Answers([]);
    }
    if reply.Unavailable? {
      return Failed(StorageError);
    }
    var nodes := Storage.GetRecords(reply.root, store.getTtl(reply.root.key + Storage.TTL_SUFFIX), store.defaultTtl);
    var answers: seq<Record> := [];
    assert nodes[0..] == nodes;
    for i := 0 to |nodes|
      invariant ConvertAll(store.parsers, name, t, nodes) ==
                match ConvertAll(store.parsers, name, t, nodes[i..])
                case Failed(e) => Failed(e)
                case Answers(more) => Answers(answers + more)
    {
      assert nodes[i..][0] == nodes[i] && nodes[i..][1..] == nodes[i + 1..];
      var d := Convert(store.parsers, t, nodes[i].node.value);
      if d.None? {
        return Failed(ConversionError);
      }
      var one := Record(Header(name, t, CLASS_INET, nodes[i].ttl, 0), d.value);
      ghost var rest := ConvertAll(store.parsers, name, t, nodes[i + 1..]);
      assert rest.Answers? ==> answers + ([one] + rest.records) == answers + [one] + rest.records;
      answers := answers + [one];
    }
    assert answers + [] == answers;
    r := Answers(answers);
  }

  // ----- the producers of AnswerQuestion -----

  type Item = Gather.Item<Record, Error>

  function Items(r: Answers): (items: seq<Item>) {
    match r
    case Failed(e) => [Gather.Failure(e)]
    case Answers(rs) => seq(|rs|, i requires 0 <= i < |rs| => Gather.Answer(rs[i]))
  }

  /** Records of the type, or else the one alias; more than one alias is an error. */
  function SingleType(store: Store, name: Bytes, t: u16): (r: Answers)
    requires t in CONVERTED
  {
    var own := TypedAnswers(store, name, t);
    if own.Failed? || own.records != [] then own
    else
      var aliases := TypedAnswers(store, name, TYPE_CNAME);
      if aliases.Failed? || |aliases.records| <= 1 then aliases else Failed(MultipleCnames)
  }

  /** What each goroutine sends: one for each type for ANY, one for a known type, none for others. */
  function Work(store: Store, q: Question): (work: seq<seq<Item>>) {
    if q.qtype == TYPE_ANY then
      seq(|CONVERTED|, i requires 0 <= i < |CONVERTED| => Items(TypedAnswers(store, q.name, CONVERTED[i])))
    else if q.qtype in CONVERTED then [Items(SingleType(store, q.name, q.qtype))]
    else []
  }

  function AllAnswers(work: seq<seq<Item>>): (rs: seq<Record>) {
    if work == [] then [] else Gather.AnswersIn(work[0]) + AllAnswers(work[1..])
  }

  function AllErrors(work: seq<seq<Item>>): (es: seq<Error>) {
    if work == [] then [] else Gather.ErrorsIn(work[0]) + AllErrors(work[1..])
  }

  function AnswersTo(store: Store, q: Question): seq<Record> {
    AllAnswers(Work(store, q))
  }

  function ErrorsOf(store: Store, q: Question): seq<Error> {
    AllErrors(Work(store, q))
  }

  lemma {:induction false} WorkTotals(work: seq<seq<Item>>)
    ensures Gather.AllAnswers(Gather.Start(work).producers) == multiset(AllAnswers(work))
    ensures Gather.AllErrors(Gather.Start(work).producers) == multiset(AllErrors(work))
  {
    var ps := Gather.Start(work).producers;
    if work != [] {
      WorkTotals(work[1..]);
      assert ps[1..] == Gather.Start(work[1..]).producers;
    }
  }

  /** The goroutine for a type that has a converter. */
  method SingleProducer(store: Store, name: Bytes, t: u16) returns (items: seq<Item>)
    requires t in CONVERTED
    ensures items == Items(SingleType(store, name, t))
  {
    hide TypedAnswers;
    var r := LookupAnswersForType(store, name, t);
    if r.Answers? && |r.records| == 0 {
      r := LookupAnswersForType(store, name, TYPE_CNAME);
      if r.Answers? && |r.records| > 1 {
        r := Failed(MultipleCnames);
      }
    }
    items := Items(r);
  }

  method Producers(store: Store, q: Question) returns (work: seq<seq<Item>>)
    ensures work == Work(store, q)
  {
    hide TypedAnswers, Items;
    work := [];
    if q.qtype == TYPE_ANY {
      for i := 0 to |CONVERTED|
        invariant |work| == i && forall j :: 0 <= j < i ==> work[j] == Items(TypedAnswers(store, q.name, CONVERTED[j]))
      {
        var r := LookupAnswersForType(store, q.name, CONVERTED[i]);
        work := work + [Items(r)];
      }
    } else if q.qtype in CONVERTED {
      var items := SingleProducer(store, q.name, q.qtype);
      work := [items];
    }
  }

  /** AnswerQuestion and gatherFromChannels: whatever the schedule, exactly the answers and errors, in some order. */
  method Ask(store: Store, q: Question) returns (rrs: seq<Record>, errs: seq<Error>)
    ensures multiset(rrs) == multiset(AnswersTo(store, q)) && multiset(errs) == multiset(ErrorsOf(store, q))
    ensures (rrs == [] <==> AnswersTo(store, q) == []) && (errs == [] <==> ErrorsOf(store, q) == [])
  {
    hide Work, AllAnswers, AllErrors;
    var work := Producers(store, q);
    rrs, errs := Gather.GatherFromChannels(work);
    WorkTotals(work);
    SameSize(rrs, AllAnswers(work));
    SameSize(errs, AllErrors(work));
  }

  lemma SameSize<T>(a: seq<T>, b: seq<T>)
    requires multiset(a) == multiset(b)
    ensures |a| == |b|
  {
    assert |multiset(a)| == |a| && |multiset(b)| == |b|;
  }

  // ----- authority -----

  /** The SOA found at the closest enclosing domain that has exactly one, from part i of the domain on. */
  function AuthorityFrom(store: Store, tree: seq<Bytes>, i: nat, serial: u32): (r: Option<Record>)
    requires i <= |tree|
    decreases |tree| - i
  {
    if i == |tree| then None
    else
      match TypedAnswers(store, Dotted(tree[i..]), TYPE_SOA)
      case Failed(_) => None
      case Answers(rs) => if |rs| == 1 then Some(WithSerial(rs[0], serial)) else AuthorityFrom(store, tree, i + 1, serial)
  }

  function WithSerial(r: Record, serial: u32): (s: Record) {
    if r.data.SOA? then r.(data := r.data.(serial := serial)) else r
  }

  method Authority(store: Store, domain: Bytes, serial: u32) returns (soa: Option<Record>)
    ensures soa == AuthorityFrom(store, Parts(domain), 0, serial)
  {
    hide TypedAnswers;
    var tree := Parts(domain);
    for i := 0 to |tree|
      invariant AuthorityFrom(store, tree, 0, serial) == AuthorityFrom(store, tree, i, serial)
    {
      var answers := LookupAnswersForType(store, Dotted(tree[i..]), TYPE_SOA);
      if answers.Failed? {
        return None;
      }
      if |answers.records| == 1 {
        return Some(WithSerial(answers.records[0], serial));
      }
    }
    soa := None;
  }

  // ----- lookup -----

  function WildcardName(domain: Bytes): (name: Bytes) {
    ['*' as int, DOT] + Fqdn(domain)
  }

  /** The wildcard questions from a level on: one for each suffix that is longer than one character. */
  function Wildcards(q: Question, parts: seq<Bytes>, level: nat): (qs: seq<Question>)
    requires level <= |parts|
    decreases |parts| - level
  {
    if level == |parts| then []
    else
      var domain := Dotted(parts[level..]);
      (if |domain| > 1 then [q.(name := WildcardName(domain))] else []) + Wildcards(q, parts, level + 1)
  }

  lemma WildcardsStep(q: Question, parts: seq<Bytes>, level: nat)
    requires level < |parts|
    ensures var domain, rest := Dotted(parts[level..]), Wildcards(q, parts, level + 1);
            Wildcards(q, parts, level) == if |domain| > 1 then [q.(name := WildcardName(domain))] + rest else rest
  {
    hide Dotted, WildcardName;
    assert [] + Wildcards(q, parts, level + 1) == Wildcards(q, parts, level + 1);
  }

  lemma NoWildcards(q: Question, parts: seq<Bytes>)
    ensures Wildcards(q, parts, |parts|) == []
  {
  }

  /** What is asked, in turn, until something answers. */
  function Candidates(q: Question): (qs: seq<Question>) {
    (if q.qclass == CLASS_INET then [q] else []) + Wildcards(q, Parts(q.name), 1)
  }

  /** The first of the questions, from index i on, that has answers. */
  function FirstAnswered(store: Store, qs: seq<Question>, i: nat): (k: nat)
    requires i <= |qs|
    ensures i <= k <= |qs|
    decreases |qs| - i
  {
    if i == |qs| || AnswersTo(store, qs[i]) != [] then i else FirstAnswered(store, qs, i + 1)
  }

  /** It has answers, unless it is past the end, and none before it has. */
  lemma {:induction false} FirstAnsweredIs(store: Store, qs: seq<Question>, i: nat)
    requires i <= |qs|
    ensures var k := FirstAnswered(store, qs, i);
            && (k < |qs| ==> AnswersTo(store, qs[k]) != [])
            && forall j :: i <= j < k ==> AnswersTo(store, qs[j]) == []
    decreases |qs| - i
  {
    hide AnswersTo;
    if i < |qs| && AnswersTo(store, qs[i]) == [] {
      FirstAnsweredIs(store, qs, i + 1);
    }
  }

  /** A question that was asked, up to the first with answers, has failed. */
  predicate Errored(store: Store, qs: seq<Question>) {
    exists j :: 0 <= j < |qs| && j <= FirstAnswered(store, qs, 0) && ErrorsOf(store, qs[j]) != []
  }

  /** SetReply on a new message, as an authoritative server. */
  function Reply(req: Message): (m: Message)
    requires req.question != []
  {
    Message(req.id, true, 0, true, false, req.recursionDesired, false, false, false, false, 0, false, [req.question[0]], [], [], [])
  }

  function Renamed(rrs: seq<Record>, name: Bytes): (rs: seq<Record>)
    ensures |rs| == |rrs| && forall i :: 0 <= i < |rrs| ==> rs[i] == rrs[i].(hdr := rrs[i].hdr.(name := name))
  {
    seq(|rrs|, i requires 0 <= i < |rrs| => rrs[i].(hdr := rrs[i].hdr.(name := name)))
  }

  /** The responses to a request: rrs are the records found, in the order in which they were gathered. */
  ghost predicate Responds(store: Store, req: Message, serial: u32, m: Message, rrs: seq<Record>)
    requires req.question != []
  {
    var q, base := req.question[0], Reply(req);
    var qs := Candidates(q);
    var k := FirstAnswered(store, qs, 0);
    if Errored(store, qs) then m == base.(rcode := RCODE_SERVER_FAILURE)
    else if k == |qs| then
      match AuthorityFrom(store, Parts(q.name), 0, serial)
      case Some(soa) => m == base.(rcode := RCODE_NAME_ERROR, ns := [soa])
      case None => m == base.(rcode := RCODE_NAME_ERROR, authoritative := false)
    else multiset(rrs) == multiset(AnswersTo(store, qs[k])) && m == base.(answer := Renamed(rrs, q.name))
  }

  /** The questions asked so far, qs[..n], have no answers; errored says whether one of them failed. */
  ghost predicate Searched(store: Store, qs: seq<Question>, n: nat, errored: bool) {
    && n <= |qs|
    && (forall j :: 0 <= j < n ==> AnswersTo(store, qs[j]) == [])
    && (errored <==> exists j :: 0 <= j < n && ErrorsOf(store, qs[j]) != [])
  }

  /** One more question is asked. */
  lemma AskedOne(store: Store, qs: seq<Question>, n: nat, errored: bool)
    requires Searched(store, qs, n, errored) && n < |qs|
    ensures var errored' := errored || ErrorsOf(store, qs[n]) != [];
            if AnswersTo(store, qs[n]) == [] then Searched(store, qs, n + 1, errored')
            else FirstAnswered(store, qs, 0) == n && (Errored(store, qs) <==> errored')
  {
    hide AnswersTo, ErrorsOf;
    if AnswersTo(store, qs[n]) != [] {
      FirstIs(store, qs, n);
    }
  }

  lemma FirstIs(store: Store, qs: seq<Question>, n: nat)
    requires n <= |qs| && (n < |qs| ==> AnswersTo(store, qs[n]) != []) && forall j :: 0 <= j < n ==> AnswersTo(store, qs[j]) == []
    ensures FirstAnswered(store, qs, 0) == n
  {
    hide AnswersTo, FirstAnswered;
    FirstAnsweredIs(store, qs, 0);
  }

  lemma AskedAll(store: Store, qs: seq<Question>, errored: bool)
    requires Searched(store, qs, |qs|, errored)
    ensures FirstAnswered(store, qs, 0) == |qs| && (Errored(store, qs) <==> errored)
  {
    hide AnswersTo, ErrorsOf;
    FirstIs(store, qs, |qs|);
  }

  /** The search of Lookup: the question itself for class IN, then the wildcards, longest suffix first. */
  method Search(store: Store, q: Question) returns (rrs: seq<Record>, errored: bool)
    ensures var qs := Candidates(q);
            var k := FirstAnswered(store, qs, 0);
            && errored == Errored(store, qs)
            && (rrs == [] <==> k == |qs|)
            && (k < |qs| ==> multiset(rrs) == multiset(AnswersTo(store, qs[k])))
  {
    hide AnswersTo, ErrorsOf, Errored, FirstAnswered, WildcardName, Parts, Dotted, Wildcards;
    rrs, errored := [], false;
    ghost var qs := Candidates(q);
    var parts := Parts(q.name);
    ghost var n := 0;
    var errs;
    assert Searched(store, qs, 0, false);
    hide Searched;
    if q.qclass == CLASS_INET {
      rrs, errs := Ask(store, q);
      errored := errs != [];
      AskedOne(store, qs, 0, false);
      if rrs != [] {
        return;
      }
      n := 1;
    }
    SearchedSome(store, qs, n, errored);
    assert qs[n..] == Wildcards(q, parts, 1);
    for level := 1 to |parts|
      invariant rrs == [] && n <= |qs| && Searched(store, qs, n, errored)
      invariant qs[n..] == Wildcards(q, parts, level)
    {
      var domain := Dotted(parts[level..]);
      WildcardsStep(q, parts, level);
      if |domain| > 1 {
        var question := q.(name := WildcardName(domain));
        assert qs[n] == qs[n..][0] == question && qs[n..][1..] == qs[n + 1..];
        rrs, errs := Ask(store, question);
        AskedOne(store, qs, n, errored);
        errored := errored || errs != [];
        if rrs != [] {
          return;
        }
        n := n + 1;
        assert ([question] + Wildcards(q, parts, level + 1))[1..] == Wildcards(q, parts, level + 1);
      }
    }
    NoWildcards(q, parts);
    assert qs[n..] == [] && n == |qs|;
    AskedAll(store, qs, errored);
  }

  lemma SearchedSome(store: Store, qs: seq<Question>, n: nat, errored: bool)
    requires Searched(store, qs, n, errored)
    ensures n <= |qs|
  {
  }

  method Lookup(store: Store, req: Message, serial: u32) returns (m: Message)
    requires req.question != []
    ensures exists rrs :: Responds(store, req, serial, m, rrs)
  {
    hide Candidates, FirstAnswered, Errored, AnswersTo, AuthorityFrom;
    var q := req.question[0];
    m := Reply(req);
    var answers, errored := Search(store, q);
    if errored {
      m := m.(rcode := RCODE_SERVER_FAILURE);
    } else if |answers| == 0 {
      var soa := Authority(store, q.name, serial);
      m := m.(rcode := RCODE_NAME_ERROR);
      if soa.Some? {
        m := m.(ns := [soa.value]);
      } else {
        m := m.(authoritative := false); // No SOA? We're not authoritative
      }
    } else {
      for i := 0 to |answers|
        invariant m == Reply(req).(answer := Renamed(answers[..i], q.name))
      {
        assert Renamed(answers[..i + 1], q.name) == Renamed(answers[..i], q.name) + [answers[i].(hdr := answers[i].hdr.(name := q.name))];
        m := m.(answer := m.answer + [answers[i].(hdr := answers[i].hdr.(name := q.name))]);
      }
      assert answers[..|answers|] == answers;
    }
    assert Responds(store, req, serial, m, answers);
  }

  // ----- what a lookup means -----

  /** Every record of a typed answer has that type, class IN and the lower-cased name. */
  lemma {:induction false} ConvertedAlike(p: Parsers, name: Bytes, t: u16, nodes: seq<Storage.EtcdRecord>)
    requires t in CONVERTED
    ensures var r := ConvertAll(p, name, t, nodes);
            r.Answers? ==> forall i :: 0 <= i < |r.records| ==>
                             && r.records[i].hdr.rrtype == t == TypeOf(r.records[i].data)
                             && r.records[i].hdr.rrclass == CLASS_INET && r.records[i].hdr.name == name
    decreases |nodes|
  {
    hide Convert;
    if nodes != [] && Convert(p, t, nodes[0].node.value).Some? {
      ConvertedAlike(p, name, t, nodes[1..]);
    }
  }

  predicate OfType(rs: seq<Record>, t: u16) {
    forall i :: 0 <= i < |rs| ==> rs[i].hdr.rrtype == t == TypeOf(rs[i].data)
  }

  lemma TypedAnswersOfType(store: Store, name: Bytes, t: u16)
    requires t in CONVERTED && TypedAnswers(store, name, t).Answers?
    ensures OfType(TypedAnswers(store, name, t).records, t)
  {
    hide ConvertAll, Convert, RecordKey;
    match store.get(RecordKey(store, name, t))
    case Found(root) => ConvertedAlike(store.parsers, Lower(name), t, NodesOf(store, root));
    case NoKey =>
  }

  lemma ItemsOf(r: Answers)
    ensures AllAnswers([Items(r)]) == if r.Answers? then r.records else []
    ensures AllErrors([Items(r)]) == if r.Answers? then [] else [r.error]
  {
    var items := Items(r);
    var work: seq<seq<Item>> := [items];
    assert work[1..] == [] && AllAnswers(work[1..]) == [] && AllErrors(work[1..]) == [];
    if r.Answers? {
      AnswerItems(r.records);
    } else {
      assert items[1..] == [] && Gather.AnswersIn(items[1..]) == [] && Gather.ErrorsIn(items[1..]) == [];
      assert Gather.AnswersIn(items) == [] && Gather.ErrorsIn(items) == [r.error];
    }
  }

  lemma {:induction false} AnswerItems(rs: seq<Record>)
    ensures Gather.AnswersIn(Items(Answers(rs))) == rs && Gather.ErrorsIn(Items(Answers(rs))) == []
    decreases |rs|
  {
    var items := Items(Answers(rs));
    if rs != [] {
      AnswerItems(rs[1..]);
      assert items[1..] == Items(Answers(rs[1..]));
      assert [rs[0]] + rs[1..] == rs;
    }
  }

  lemma NoWork()
    ensures AllAnswers([]) == []
  {
  }

  /** Unless all types are asked for, answers have the type of the question, or there is one lone alias. */
  lemma AnswersFit(store: Store, q: Question)
    requires q.qtype != TYPE_ANY
    ensures var rs := AnswersTo(store, q);
            rs == [] || OfType(rs, q.qtype) || (|rs| == 1 && OfType(rs, TYPE_CNAME))
  {
    hide TypedAnswers, AllAnswers, Items;
    if q.qtype in CONVERTED {
      ItemsOf(SingleType(store, q.name, q.qtype));
      var own, aliases := TypedAnswers(store, q.name, q.qtype), TypedAnswers(store, q.name, TYPE_CNAME);
      if own.Answers? {
        TypedAnswersOfType(store, q.name, q.qtype);
      }
      if aliases.Answers? {
        TypedAnswersOfType(store, q.name, TYPE_CNAME);
      }
    } else {
      assert Work(store, q) == [];
      NoWork();
    }
  }

  /**
    Main result, the shape of a response. It is exactly one of: a server failure without answers, when something that
    was tried failed; a name error without answers, with the SOA of the closest authority or else not authoritative;
    or a success with records that all bear the question's name. Unless all types were asked for, these all have the
    type of the question, or are one lone alias.
    */
  lemma ResponseShape(store: Store, req: Message, serial: u32, m: Message, rrs: seq<Record>)
    requires req.question != [] && Responds(store, req, serial, m, rrs)
    ensures var q := req.question[0];
            var qs := Candidates(q);
            && m.id == req.id && m.response && m.question == [q] && m.opcode == 0 && m.recursionDesired == req.recursionDesired
            && !m.truncated && !m.recursionAvailable && m.extra == []
            && m.rcode in {0, 2, 3}
            && (m.rcode == 2 <==> Errored(store, qs))
            && (m.rcode == 0 <==> m.answer != [])
            && (m.rcode != 3 ==> m.ns == [] && m.authoritative)
            && (m.rcode == 3 ==>
                  && (forall j :: 0 <= j < |qs| ==> AnswersTo(store, qs[j]) == [])
                  && |m.ns| <= 1 && (m.authoritative <==> m.ns != []))
            && (forall i :: 0 <= i < |m.answer| ==> m.answer[i].hdr.name == q.name)
            && (q.qtype != 255 ==> m.answer == [] || OfType(m.answer, q.qtype) || (|m.answer| == 1 && OfType(m.answer, 5)))
  {
    hide AnswersTo, ErrorsOf, Errored, FirstAnswered, Candidates, AuthorityFrom, Parts, OfType;
    var q := req.question[0];
    var qs := Candidates(q);
    var k := FirstAnswered(store, qs, 0);
    FirstAnsweredIs(store, qs, 0);
    if !Errored(store, qs) && k < |qs| {
      SameSize(rrs, AnswersTo(store, qs[k]));
      if q.qtype != TYPE_ANY {
        CandidateType(q, k);
        AnswersFit(store, qs[k]);
        SameTypes(rrs, AnswersTo(store, qs[k]), q.name, q.qtype);
        SameTypes(rrs, AnswersTo(store, qs[k]), q.name, TYPE_CNAME);
      }
    } else {
      assert m.answer == [];
    }
  }

  lemma CandidateType(q: Question, k: nat)
    requires k < |Candidates(q)|
    ensures Candidates(q)[k].qtype == q.qtype
  {
    hide WildcardName;
    WildcardTypes(q, Parts(q.name), 1);
  }

  lemma {:induction false} WildcardTypes(q: Question, parts: seq<Bytes>, level: nat)
    requires level <= |parts|
    ensures forall i :: 0 <= i < |Wildcards(q, parts, level)| ==> Wildcards(q, parts, level)[i].qtype == q.qtype
    decreases |parts| - level
  {
    hide WildcardName;
    if level < |parts| {
      WildcardTypes(q, parts, level + 1);
    }
  }

  /** The order of records and their names do not matter to their types. */
  lemma SameTypes(rrs: seq<Record>, rs: seq<Record>, name: Bytes, t: u16)
    requires multiset(rrs) == multiset(rs)
    ensures OfType(rs, t) ==> OfType(Renamed(rrs, name), t)
  {
    if OfType(rs, t) {
      forall i | 0 <= i < |rrs| ensures rrs[i].hdr.rrtype == t == TypeOf(rrs[i].data) {
        assert rrs[i] in multiset(rrs) && rrs[i] in multiset(rs);
      }
    }
  }

  /**
    Main result, the closest match: the answers are those of the first question in the order of Candidates that has
    any: the question itself, then wildcards for its suffixes, and a wildcard for a longer suffix comes first.
    */
  lemma ClosestMatch(store: Store, q: Question, level: nat)
    requires 1 <= level < |Parts(q.name)| && |Dotted(Parts(q.name)[level..])| > 1
    requires AnswersTo(store, q.(name := WildcardName(Dotted(Parts(q.name)[level..])))) != []
    ensures var qs := Candidates(q);
            var k := FirstAnswered(store, qs, 0);
            && k < |qs|
            && (qs[k] == q || exists l :: 1 <= l <= level && qs[k] == q.(name := WildcardName(Dotted(Parts(q.name)[l..]))))
            && (q.qclass == CLASS_INET && AnswersTo(store, q) != [] ==> qs[k] == q)
  {
    hide AnswersTo, WildcardName, Dotted, FirstAnswered;
    var qs, parts := Candidates(q), Parts(q.name);
    var shift := if q.qclass == CLASS_INET then 1 else 0;
    var i := WildcardAt(q, parts, 1, level);
    assert qs[shift + i] == Wildcards(q, parts, 1)[i];
    FirstAnsweredIs(store, qs, 0);
    var k := FirstAnswered(store, qs, 0);
    assert k <= shift + i && (shift == 1 ==> qs[0] == q);
    if k >= shift {
      var l := WildcardLevel(q, parts, 1, level, i, k - shift);
      assert qs[k] == Wildcards(q, parts, 1)[k - shift];
    }
  }

  /** Where the wildcard of a level stands among the questions. */
  lemma {:induction false} WildcardAt(q: Question, parts: seq<Bytes>, from: nat, level: nat) returns (i: nat)
    requires 1 <= from <= level < |parts| && |Dotted(parts[level..])| > 1
    ensures i < |Wildcards(q, parts, from)| && Wildcards(q, parts, from)[i] == q.(name := WildcardName(Dotted(parts[level..])))
    ensures i == |Wildcards(q, parts, from)| - |Wildcards(q, parts, level)|
    decreases level - from
  {
    hide WildcardName, Dotted;
    if from == level {
      i := 0;
    } else {
      i := WildcardAt(q, parts, from + 1, level);
      if |Dotted(parts[from..])| > 1 {
        i := i + 1;
      }
    }
  }

  /** A question that does not stand behind the one for a level belongs to that level or one before, a longer suffix. */
  lemma {:induction false} WildcardLevel(q: Question, parts: seq<Bytes>, from: nat, level: nat, i: nat, j: nat) returns (l: nat)
    requires 1 <= from <= level < |parts| && |Dotted(parts[level..])| > 1
    requires i == |Wildcards(q, parts, from)| - |Wildcards(q, parts, level)| && j <= i < |Wildcards(q, parts, from)|
    ensures from <= l <= level && Wildcards(q, parts, from)[j] == q.(name := WildcardName(Dotted(parts[l..])))
    decreases level - from
  {
    hide WildcardName, Dotted;
    if |Dotted(parts[from..])| > 1 {
      if j == 0 {
        l := from;
      } else {
        l := WildcardLevel(q, parts, from + 1, level, i - 1, j - 1);
      }
    } else {
      l := WildcardLevel(q, parts, from + 1, level, i, j);
    }
  }

  /** What stands behind a level is the end of the name, and shorter for every further level. */
  lemma {:induction false} SuffixOfLevel(parts: seq<Bytes>, l: nat)
    requires l < |parts|
    ensures var s, t := Dotted(parts), Dotted(parts[l..]);
            |t| <= |s| && s[|s| - |t|..] == t && (l > 0 ==> |t| < |s|)
    decreases l
  {
    if l > 0 {
      SuffixOfLevel(parts[1..], l - 1);
      assert parts[1..][l - 1..] == parts[l..];
      var s, rest, t := Dotted(parts), Dotted(parts[1..]), Dotted(parts[l..]);
      assert s == (parts[0] + [DOT]) + rest;
      assert s[|s| - |rest|..] == rest;
      assert s[|s| - |t|..] == s[|s| - |rest|..][|rest| - |t|..];
    } else {
      assert parts[0..] == parts;
    }
  }

  lemma {:induction false} DottedParts(s: Bytes)
    ensures Dotted(Parts(s)) == s
    decreases |s|
  {
    hide Dotted;
    if s == [] {
      DottedOne([]);
    } else {
      DottedParts(s[1..]);
      assert s == [s[0]] + s[1..];
      var rest := Parts(s[1..]);
      if s[0] == DOT {
        DottedCons([], rest);
        assert [] + [DOT] + s[1..] == s;
      } else {
        DottedLonger(s[0], rest);
      }
    }
  }

  lemma DottedOne(p: Bytes)
    ensures Dotted([p]) == p
  {
  }

  lemma DottedCons(p: Bytes, ps: seq<Bytes>)
    requires |ps| >= 1
    ensures Dotted([p] + ps) == p + [DOT] + Dotted(ps)
  {
    assert ([p] + ps)[1..] == ps;
  }

  lemma DottedLonger(c: byte, ps: seq<Bytes>)
    requires |ps| >= 1
    ensures Dotted([[c] + ps[0]] + ps[1..]) == [c] + Dotted(ps)
  {
    hide Dotted;
    var rest := ps[1..];
    if |ps| > 1 {
      DottedCons([c] + ps[0], rest);
      DottedCons(ps[0], rest);
      assert [ps[0]] + rest == ps;
      Arith.Reassociate([c], ps[0], [DOT]);
      Arith.Reassociate([c], ps[0] + [DOT], Dotted(rest));
    } else {
      DottedOne([c] + ps[0]);
      DottedOne(ps[0]);
      assert [[c] + ps[0]] + rest == [[c] + ps[0]] && [ps[0]] == ps;
    }
  }

  /** The domains tried for the authority: the name itself first, then what stands behind each of its dots. */
  lemma EnclosingDomain(name: Bytes, l: nat)
    requires l < |Parts(name)|
    ensures var t := Dotted(Parts(name)[l..]);
            && |t| <= |name| && name[|name| - |t|..] == t
            && (l == 0 <==> t == name)
            && (l > 0 ==> name[|name| - |t| - 1] == DOT)
  {
    hide Dotted, Parts;
    DottedParts(name);
    SuffixOfLevel(Parts(name), l);
    if l > 0 {
      DotBefore(Parts(name), l);
    } else {
      assert Parts(name)[0..] == Parts(name);
    }
  }

  /** In front of every level but the first there is a dot. */
  lemma {:induction false} DotBefore(parts: seq<Bytes>, l: nat)
    requires 0 < l < |parts|
    ensures var s, t := Dotted(parts), Dotted(parts[l..]); |t| < |s| && s[|s| - |t| - 1] == DOT
    decreases l
  {
    var s, rest, t := Dotted(parts), Dotted(parts[1..]), Dotted(parts[l..]);
    assert s == (parts[0] + [DOT]) + rest;
    if l > 1 {
      DotBefore(parts[1..], l - 1);
      assert parts[1..][l - 1..] == parts[l..];
      assert s[|s| - |t| - 1] == rest[|rest| - |t| - 1];
    }
  }

  /** The search for the authority ends at this level: the storage fails, or there is exactly one SOA. */
  predicate Decides(store: Store, domain: Bytes) {
    var r := TypedAnswers(store, domain, TYPE_SOA);
    r.Failed? || |r.records| == 1
  }

  /** There is no authority exactly when the first level that decides fails, or none decides. */
  lemma {:induction false} NoAuthority(store: Store, tree: seq<Bytes>, from: nat, serial: u32)
    requires from <= |tree|
    ensures AuthorityFrom(store, tree, from, serial) == None <==>
            forall i :: from <= i < |tree| && Decides(store, Dotted(tree[i..])) && NoneDecides(store, tree, from, i) ==>
              TypedAnswers(store, Dotted(tree[i..]), TYPE_SOA).Failed?
    decreases |tree| - from
  {
    hide TypedAnswers, Dotted;
    if from < |tree| {
      NoAuthority(store, tree, from + 1, serial);
      if Decides(store, Dotted(tree[from..])) {
        assert NoneDecides(store, tree, from, from);
      } else {
        assert forall i :: from < i < |tree| ==> (NoneDecides(store, tree, from, i) <==> NoneDecides(store, tree, from + 1, i));
      }
    }
  }

  ghost predicate NoneDecides(store: Store, tree: seq<Bytes>, from: nat, i: nat)
    requires i <= |tree|
  {
    forall j :: from <= j < i ==> !Decides(store, Dotted(tree[j..]))
  }

  /** The authority is that of the closest enclosing domain with exactly one SOA, if nothing fails on the way there. */
  lemma {:induction false} AuthorityIsNearest(store: Store, tree: seq<Bytes>, from: nat, i: nat, serial: u32)
    requires from <= i < |tree| && NoneDecides(store, tree, from, i) && Decides(store, Dotted(tree[i..]))
    ensures AuthorityFrom(store, tree, from, serial) ==
            match TypedAnswers(store, Dotted(tree[i..]), TYPE_SOA)
            case Failed(_) => None
            case Answers(rs) => Some(WithSerial(rs[0], serial))
    ensures TypedAnswers(store, Dotted(tree[i..]), TYPE_SOA).Answers? ==>
              && AuthorityFrom(store, tree, from, serial).value.data.SOA?
              && AuthorityFrom(store, tree, from, serial).value.data.serial == serial
    decreases i - from
  {
    hide TypedAnswers, Dotted;
    if from < i {
      assert !Decides(store, Dotted(tree[from..]));
      AuthorityIsNearest(store, tree, from + 1, i, serial);
    } else if TypedAnswers(store, Dotted(tree[i..]), TYPE_SOA).Answers? {
      TypedAnswersOfType(store, Dotted(tree[i..]), TYPE_SOA);
    }
  }

  // ----- keys ignore letter case and the closing dot -----

  lemma {:induction false} PartsDot(s: Bytes)
    ensures Parts(s + [DOT]) == Parts(s) + [[]]
    decreases |s|
  {
    if s == [] {
      assert s + [DOT] == [DOT] && [DOT][1..] == [];
    } else {
      PartsDot(s[1..]);
      assert (s + [DOT])[1..] == s[1..] + [DOT] && (s + [DOT])[0] == s[0];
    }
  }

  lemma {:induction false} KeyOfEmptyPart(ps: seq<Bytes>)
    ensures KeyOf(ps + [[]]) == KeyOf(ps)
    decreases |ps|
  {
    if ps == [] {
      var nothing: Bytes := [];
      assert ps + [nothing] == [nothing] && [nothing][1..] == [];
    } else {
      KeyOfEmptyPart(ps[1..]);
      assert (ps + [[]])[1..] == ps[1..] + [[]] && (ps + [[]])[0] == ps[0];
    }
  }

  /** Names that differ in letter case or in the closing dot are looked up under the same key. */
  lemma KeysIgnoreCaseAndDot(store: Store, name: Bytes, t: u16)
    ensures forall other :: SameButCase(name, other) ==> RecordKey(store, other, t) == RecordKey(store, name, t)
    ensures RecordKey(store, name + [DOT], t) == RecordKey(store, name, t)
  {
    hide KeyOf, Parts;
    forall other | SameButCase(name, other)
      ensures RecordKey(store, other, t) == RecordKey(store, name, t)
    {
      LowerIs(name, other);
    }
    assert Lower(Lower(name)) == Lower(name);
    assert Lower(name + [DOT]) == Lower(name) + [DOT];
    PartsDot(Lower(name));
    KeyOfEmptyPart(Parts(Lower(name)));
  }
}
