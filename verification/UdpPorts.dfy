/**
 * The UDP port table of the redirector (src/lib.rs:2172-2240). Three structures are kept in step:
 * source -> local port, a bounded cache port -> source in order of use, and port -> worker. The
 * outcome of opening a SOCKS association is an input; a port offered by it is not in use yet.
 */
module UdpPorts {
  import opened Basics

  type Port = nat
  type Source = (nat, nat)

  const MAX_UDP_PORT: nat := 256

  datatype Entry = Entry(port: Port, source: Source)

  // ---------------------------------------------------------------------------------------------
  // The cache: least recently used entry first
  // ---------------------------------------------------------------------------------------------

  function Find(lru: seq<Entry>, p: Port): (r: Option<Entry>)
    ensures r.Some? ==> r.value in lru && r.value.port == p
    ensures r.None? ==> forall e :: e in lru ==> e.port != p
  {
    if lru == [] then None else if lru[0].port == p then Some(lru[0]) else Find(lru[1..], p)
  }

  function Without(lru: seq<Entry>, p: Port): (r: seq<Entry>)
    ensures forall e :: e in r <==> e in lru && e.port != p
    ensures |r| <= |lru|
    ensures (exists e :: e in lru && e.port == p) ==> |r| < |lru|
  {
    if lru == [] then [] else
      (if lru[0].port == p then [] else [lru[0]]) + Without(lru[1..], p)
  }

  /** Reading an entry makes it the most recent one. */
  function Promote(lru: seq<Entry>, p: Port): seq<Entry> {
    match Find(lru, p)
    case None => lru
    case Some(e) => Without(lru, p) + [e]
  }

  /** Writing an entry makes it the most recent one; a full cache drops the oldest for a new one. */
  function Put(lru: seq<Entry>, e: Entry): seq<Entry> {
    if Find(lru, e.port).Some? || |lru| < MAX_UDP_PORT then Without(lru, e.port) + [e] else lru[1..] + [e]
  }

  /** The cache never holds more than its capacity, and the entry written is the most recent one. */
  lemma PutBounded(lru: seq<Entry>, e: Entry)
    requires |lru| <= MAX_UDP_PORT
    ensures 0 < |Put(lru, e)| <= MAX_UDP_PORT && Put(lru, e)[|Put(lru, e)| - 1] == e
  {
    if Find(lru, e.port).Some? {
      assert |Without(lru, e.port)| < |lru|;
    }
  }

  // ---------------------------------------------------------------------------------------------
  // The table
  // ---------------------------------------------------------------------------------------------

  /** `workers` gives the source each worker sends its replies to. */
  datatype Table = Table(ports: map<Source, Port>, lru: seq<Entry>, workers: map<Port, Source>) {
    /** The map and the cache are inverse to each other, and the workers serve the same ports. */
    ghost predicate Ok() {
      |lru| <= MAX_UDP_PORT && DistinctPorts(lru) && Linked(ports, lru, workers)
    }

    /** A new source is given the port of another one. */
    predicate Reuses(src: Source, offered: Option<Port>) {
      src !in ports && (offered.None? || |lru| >= MAX_UDP_PORT) && lru != []
    }

    function Bind(src: Source, offered: Option<Port>): (Table, Option<Port>) {
      if src in ports then
        (this.(lru := Promote(lru, ports[src])), Some(ports[src]))
      else if |lru| < MAX_UDP_PORT && offered.Some? then
        var port := offered.value;
        (Table(ports[src := port], Put(lru, Entry(port, src)), workers[port := src]), Some(port))
      else if lru == [] then
        (this, None)
      else
        var Entry(port, previous) := lru[0];
        (this.(ports := (ports - {previous})[src := port], lru := Put(lru[1..], Entry(port, src))), Some(port))
    }

    function Unbind(src: Source): Table {
      if src in ports then
        Table(ports - {src}, Without(lru, ports[src]), workers - {ports[src]})
      else this
    }

    /** Every reply reaches the source its port is bound to. */
    ghost predicate Aligned() {
      forall s :: s in ports ==> ports[s] in workers && workers[ports[s]] == s
    }
  }

  ghost predicate Linked(ports: map<Source, Port>, lru: seq<Entry>, workers: map<Port, Source>) {
    && (forall e {:trigger e in lru} ::
          e in lru ==> e.source in ports && ports[e.source] == e.port && e.port in workers)
    && (forall s {:trigger s in ports} :: s in ports ==> Entry(ports[s], s) in lru)
    && (forall p {:trigger p in workers} :: p in workers ==> Find(lru, p).Some?)
  }

  ghost predicate DistinctPorts(lru: seq<Entry>) {
    forall i, j :: 0 <= i < j < |lru| ==> lru[i].port != lru[j].port
  }

  // ---------------------------------------------------------------------------------------------
  // Runs
  // ---------------------------------------------------------------------------------------------

  datatype Event = Bind(src: Source, offered: Option<Port>) | Unbind(src: Source)

  /** The table and the ports handed out so far, in order. */
  datatype Past = Past(table: Table, uses: seq<Port>) {
    /** A port offered by a new association is not in use. */
    predicate Allows(e: Event) {
      e.Bind? && e.offered.Some? ==> e.offered.value !in table.workers
    }

    function After(e: Event): Past {
      match e
      case Bind(src, offered) =>
        var (next, port) := table.Bind(src, offered);
        Past(next, if port.Some? then uses + [port.value] else uses)
      case Unbind(src) => Past(table.Unbind(src), uses)
    }

    /** The cache is in order of last use. */
    ghost predicate Ok() {
      table.Ok() && InOrder(table.lru, uses)
    }
  }

  /** When a port was last handed out: 0 for never. */
  function LastUse(uses: seq<Port>, p: Port): (t: nat)
    ensures t <= |uses|
  {
    if uses == [] then 0
    else if uses[|uses| - 1] == p then |uses|
    else LastUse(uses[..|uses| - 1], p)
  }

  lemma LastUseAppend(uses: seq<Port>, q: Port, p: Port)
    ensures LastUse(uses + [q], p) == if p == q then |uses| + 1 else LastUse(uses, p)
  {
    assert (uses + [q])[..|uses|] == uses;
  }

  ghost predicate InOrder(lru: seq<Entry>, uses: seq<Port>) {
    forall i, j :: 0 <= i < j < |lru| ==> LastUse(uses, lru[i].port) < LastUse(uses, lru[j].port)
  }

  // ---------------------------------------------------------------------------------------------
  // Taking an entry out and putting one at the end
  // ---------------------------------------------------------------------------------------------

  lemma {:induction false} WithoutNone(lru: seq<Entry>, p: Port)
    requires forall e :: e in lru ==> e.port != p
    ensures Without(lru, p) == lru
    decreases |lru|
  {
    if lru != [] {
      WithoutNone(lru[1..], p);
      assert lru == [lru[0]] + lru[1..];
    }
  }

  /** Taking the oldest port out and putting it back only moves it. */
  lemma PutBack(lru: seq<Entry>, src: Source)
    requires lru != [] && DistinctPorts(lru) && |lru| <= MAX_UDP_PORT
    ensures var e := Entry(lru[0].port, src);
            Put(lru[1..], e) == Without(lru, e.port) + [e]
  {
    var rest, e := lru[1..], Entry(lru[0].port, src);
    TailIsOthers(lru);
    WithoutNone(rest, e.port);
    assert Without(lru, e.port) == rest;
    assert Put(rest, e) == Without(rest, e.port) + [e];
  }

  lemma TailIsOthers(lru: seq<Entry>)
    requires lru != [] && DistinctPorts(lru)
    ensures forall x :: x in lru[1..] ==> x.port != lru[0].port
  {
    forall x | x in lru[1..]
      ensures x.port != lru[0].port
    {
      var i :| 0 <= i < |lru[1..]| && lru[1..][i] == x;
      assert lru[i + 1] == x;
    }
  }

  lemma SameEntry(lru: seq<Entry>, a: Entry, b: Entry)
    requires DistinctPorts(lru) && a in lru && b in lru && a.port == b.port
    ensures a == b
  {
  }

  lemma OrderCons(x: Entry, rest: seq<Entry>, uses: seq<Port>)
    requires InOrder(rest, uses)
    requires forall e :: e in rest ==> LastUse(uses, x.port) < LastUse(uses, e.port)
    ensures InOrder([x] + rest, uses)
  {
    var lru := [x] + rest;
    forall i, j | 0 <= i < j < |lru|
      ensures LastUse(uses, lru[i].port) < LastUse(uses, lru[j].port)
    {
      assert lru[j] == rest[j - 1];
      assert i > 0 ==> lru[i] == rest[i - 1];
    }
  }

  lemma {:induction false} WithoutInOrder(lru: seq<Entry>, p: Port, uses: seq<Port>)
    requires InOrder(lru, uses)
    ensures InOrder(Without(lru, p), uses)
    decreases |lru|
  {
    if lru != [] {
      var rest := lru[1..];
      WithoutInOrder(rest, p, uses);
      forall e | e in rest
        ensures LastUse(uses, lru[0].port) < LastUse(uses, e.port)
      {
        var k :| 0 <= k < |rest| && rest[k] == e;
        assert lru[k + 1] == e;
      }
      OrderCons(lru[0], Without(rest, p), uses);
    }
  }

  /** Putting a used port at the end keeps the order. */
  lemma UseInOrder(lru: seq<Entry>, e: Entry, uses: seq<Port>)
    requires InOrder(lru, uses) && forall x :: x in lru ==> x.port != e.port
    ensures InOrder(lru + [e], uses + [e.port])
  {
    var next := lru + [e];
    forall i, j | 0 <= i < j < |next|
      ensures LastUse(uses + [e.port], next[i].port) < LastUse(uses + [e.port], next[j].port)
    {
      assert next[i] in lru;
      LastUseAppend(uses, e.port, next[i].port);
      LastUseAppend(uses, e.port, next[j].port);
      assert j < |lru| ==> next[j] in lru;
    }
  }

  lemma InOrderDistinct(lru: seq<Entry>, uses: seq<Port>)
    requires InOrder(lru, uses)
    ensures DistinctPorts(lru)
  {
  }

  lemma TakeOut(ports: map<Source, Port>, lru: seq<Entry>, workers: map<Port, Source>, src: Source)
    requires Linked(ports, lru, workers) && DistinctPorts(lru) && src in ports
    ensures Linked(ports - {src}, Without(lru, ports[src]), workers - {ports[src]})
    ensures |Without(lru, ports[src])| < |lru|
  {
    var port := ports[src];
    var e := Entry(port, src);
    assert e in lru;
    forall s | s in ports - {src}
      ensures Entry(ports[s], s) in Without(lru, port)
    {
      if ports[s] == port {
        SameEntry(lru, e, Entry(port, s));
      }
    }
    forall x | x in Without(lru, port)
      ensures x.source in ports - {src} && x.port in workers - {port}
    {
      assert x.source != src;
    }
    forall q | q in workers - {port}
      ensures Find(Without(lru, port), q).Some?
    {
      assert Find(lru, q).value in Without(lru, port);
    }
  }

  lemma PutIn(ports: map<Source, Port>, lru: seq<Entry>, workers: map<Port, Source>, e: Entry, to: Source)
    requires Linked(ports, lru, workers) && e.source !in ports && e.port !in workers
    ensures Linked(ports[e.source := e.port], lru + [e], workers[e.port := to])
  {
    var next := lru + [e];
    assert e in next;
    forall q | q in workers[e.port := to]
      ensures Find(next, q).Some?
    {
      assert q != e.port ==> Find(lru, q).value in next;
    }
  }

  // ---------------------------------------------------------------------------------------------
  // Every step keeps the table
  // ---------------------------------------------------------------------------------------------

  lemma Restore<K, V>(m: map<K, V>, k: K)
    requires k in m
    ensures (m - {k})[k := m[k]] == m
  {
  }

  /** The entry of a bound source is replaced by one for `src` at the recent end. */
  lemma MoveLinked(t: Table, bound: Source, src: Source)
    requires t.Ok() && bound in t.ports && (src == bound || src !in t.ports)
    ensures var port := t.ports[bound];
            && Linked((t.ports - {bound})[src := port], Without(t.lru, port) + [Entry(port, src)], t.workers)
            && |Without(t.lru, port)| < |t.lru|
  {
    var port := t.ports[bound];
    TakeOut(t.ports, t.lru, t.workers, bound);
    assert Entry(port, bound) in t.lru;
    PutIn(t.ports - {bound}, Without(t.lru, port), t.workers - {port}, Entry(port, src), t.workers[port]);
    Restore(t.workers, port);
  }

  lemma MoveInOrder(lru: seq<Entry>, e: Entry, uses: seq<Port>)
    requires InOrder(lru, uses)
    ensures InOrder(Without(lru, e.port) + [e], uses + [e.port]) && DistinctPorts(Without(lru, e.port) + [e])
  {
    WithoutInOrder(lru, e.port, uses);
    UseInOrder(Without(lru, e.port), e, uses);
    InOrderDistinct(Without(lru, e.port) + [e], uses + [e.port]);
  }

  lemma PromoteIs(lru: seq<Entry>, e: Entry)
    requires DistinctPorts(lru) && e in lru
    ensures Promote(lru, e.port) == Without(lru, e.port) + [e]
  {
    SameEntry(lru, e, Find(lru, e.port).value);
  }

  lemma HitKeeps(p: Past, src: Source, offered: Option<Port>)
    requires p.Ok() && src in p.table.ports
    ensures p.After(Event.Bind(src, offered)).Ok()
  {
    var t, e := p.table, Entry(p.table.ports[src], src);
    MoveLinked(t, src, src);
    MoveInOrder(t.lru, e, p.uses);
    PromoteIs(t.lru, e);
    Restore(t.ports, src);
  }

  lemma ReuseKeeps(p: Past, src: Source, offered: Option<Port>)
    requires p.Ok() && p.table.Reuses(src, offered)
    ensures p.After(Event.Bind(src, offered)).Ok()
  {
    var t := p.table;
    assert t.lru[0] in t.lru;
    MoveLinked(t, t.lru[0].source, src);
    MoveInOrder(t.lru, Entry(t.lru[0].port, src), p.uses);
    PutBack(t.lru, src);
  }

  lemma OpenKeeps(p: Past, src: Source, port: Port)
    requires p.Ok() && src !in p.table.ports && |p.table.lru| < MAX_UDP_PORT && port !in p.table.workers
    ensures p.After(Event.Bind(src, Some(port))).Ok()
  {
    var t, e := p.table, Entry(port, src);
    WithoutNone(t.lru, port);
    PutIn(t.ports, t.lru, t.workers, e, src);
    UseInOrder(t.lru, e, p.uses);
    InOrderDistinct(t.lru + [e], p.uses + [port]);
  }

  lemma UnbindKeeps(p: Past, src: Source)
    requires p.Ok()
    ensures p.After(Event.Unbind(src)).Ok()
  {
    var t := p.table;
    if src in t.ports {
      TakeOut(t.ports, t.lru, t.workers, src);
      WithoutInOrder(t.lru, t.ports[src], p.uses);
      InOrderDistinct(Without(t.lru, t.ports[src]), p.uses);
    }
  }

  lemma StepKeeps(p: Past, e: Event)
    requires p.Ok() && p.Allows(e)
    ensures p.After(e).Ok()
  {
    match e
    case Unbind(src) => UnbindKeeps(p, src);
    case Bind(src, offered) =>
      if src in p.table.ports {
        HitKeeps(p, src, offered);
      } else if |p.table.lru| < MAX_UDP_PORT && offered.Some? {
        OpenKeeps(p, src, offered.value);
      } else if p.table.lru != [] {
        ReuseKeeps(p, src, offered);
      }
  }

  predicate AllowedRun(p: Past, events: seq<Event>)
    decreases |events|
  {
    events != [] ==> p.Allows(events[0]) && AllowedRun(p.After(events[0]), events[1..])
  }

  function Run(p: Past, events: seq<Event>): Past
    decreases |events|
  {
    if events == [] then p else Run(p.After(events[0]), events[1..])
  }

  function Empty(): Past { Past(Table(map[], [], map[]), []) }

  lemma {:induction false} RunKeeps(p: Past, events: seq<Event>)
    requires p.Ok() && AllowedRun(p, events)
    ensures Run(p, events).Ok()
    decreases |events|
  {
    if events != [] {
      StepKeeps(p, events[0]);
      RunKeeps(p.After(events[0]), events[1..]);
    }
  }

  lemma {:induction false} SizeOf(lru: seq<Entry>, ports: set<Port>)
    requires DistinctPorts(lru)
    requires forall p :: p in ports <==> Find(lru, p).Some?
    ensures |ports| == |lru|
    decreases |lru|
  {
    if lru == [] {
      assert forall p :: p !in ports;
    } else {
      var rest, p := lru[1..], lru[0].port;
      assert Find(rest, p).None?;
      SizeOf(rest, ports - {p});
      assert Find(lru, p).Some?;
      assert ports == (ports - {p}) + {p};
    }
  }

  /**
   * In every reachable table two sources never share a port, the map and the cache are inverse,
   * the workers serve exactly the bound ports, and all three have the same size, at most 256.
   */
  lemma TableStaysInverse(events: seq<Event>)
    requires AllowedRun(Empty(), events)
    ensures var t := Run(Empty(), events).table;
            && (forall s, p :: s in t.ports && t.ports[s] == p <==> Entry(p, s) in t.lru)
            && (forall s, s' :: s in t.ports && s' in t.ports && t.ports[s] == t.ports[s'] ==> s == s')
            && t.ports.Values == t.workers.Keys
            && |t.ports| == |t.lru| == |t.workers| <= MAX_UDP_PORT
  {
    RunKeeps(Empty(), events);
    var t := Run(Empty(), events).table;
    OneOwner(t);
    PortsAreServed(t);
    SizeOf(t.lru, t.workers.Keys);
    SameCount(t.ports);
  }

  lemma OneOwner(t: Table)
    requires t.Ok()
    ensures forall s, s' :: s in t.ports && s' in t.ports && t.ports[s] == t.ports[s'] ==> s == s'
  {
    forall s, s' | s in t.ports && s' in t.ports && t.ports[s] == t.ports[s']
      ensures s == s'
    {
      SameEntry(t.lru, Entry(t.ports[s], s), Entry(t.ports[s'], s'));
    }
  }

  lemma PortsAreServed(t: Table)
    requires t.Ok()
    ensures t.ports.Values == t.workers.Keys
    ensures forall p :: p in t.workers.Keys <==> Find(t.lru, p).Some?
  {
    forall p | p in t.workers
      ensures p in t.ports.Values
    {
      var e := Find(t.lru, p).value;
      assert t.ports[e.source] == p;
    }
    forall p | p in t.ports.Values
      ensures p in t.workers
    {
      var s :| s in t.ports && t.ports[s] == p;
      assert Entry(p, s) in t.lru;
    }
  }

  lemma ValuesWithout(m: map<Source, Port>, s: Source)
    requires s in m
    ensures m.Values == (m - {s}).Values + {m[s]}
  {
    var rest := m - {s};
    forall p | p in m.Values
      ensures p in rest.Values + {m[s]}
    {
      var x :| x in m && m[x] == p;
      if x != s {
        assert x in rest && rest[x] == p;
      }
    }
    forall p | p in rest.Values
      ensures p in m.Values
    {
      var x :| x in rest && rest[x] == p;
      assert x in m;
    }
  }

  lemma {:induction false} SameCount(m: map<Source, Port>)
    requires forall s, s' :: s in m && s' in m && m[s] == m[s'] ==> s == s'
    ensures |m.Values| == |m|
    decreases |m|
  {
    if m != map[] {
      var s :| s in m;
      var rest := m - {s};
      assert m.Keys == rest.Keys + {s};
      SameCount(rest);
      ValuesWithout(m, s);
      assert m[s] !in rest.Values;
    }
  }

  /**
   * In every reachable table a reuse hands out the bound port whose last use is the oldest, takes
   * it from its source, and moves no other source.
   */
  lemma ReuseTakesOldest(events: seq<Event>, src: Source, offered: Option<Port>)
    requires AllowedRun(Empty(), events)
    requires Run(Empty(), events).table.Reuses(src, offered)
    ensures var past := Run(Empty(), events);
            var (next, port) := past.table.Bind(src, offered);
            && port.Some?
            && port.value in past.table.workers
            && (forall q :: q in past.table.workers && q != port.value ==>
                  LastUse(past.uses, port.value) < LastUse(past.uses, q))
            && (forall s :: s in next.ports <==>
                  s == src || (s in past.table.ports && past.table.ports[s] != port.value))
            && (forall s :: s in next.ports && s != src ==> next.ports[s] == past.table.ports[s])
  {
    RunKeeps(Empty(), events);
    var past := Run(Empty(), events);
    OldestFirst(past.table.lru, past.table.workers, past.uses);
    ReuseMoves(past.table, src, offered);
  }

  lemma ReuseMoves(t: Table, src: Source, offered: Option<Port>)
    requires t.Ok() && t.Reuses(src, offered)
    ensures var (next, port) := t.Bind(src, offered);
            && port == Some(t.lru[0].port) && port.value in t.workers
            && (forall s :: s in next.ports <==> s == src || (s in t.ports && t.ports[s] != port.value))
            && (forall s :: s in next.ports && s != src ==> next.ports[s] == t.ports[s])
  {
    OnlyOwner(t, t.lru[0]);
  }

  lemma OldestFirst(lru: seq<Entry>, workers: map<Port, Source>, uses: seq<Port>)
    requires lru != [] && InOrder(lru, uses) && forall p :: p in workers ==> Find(lru, p).Some?
    ensures forall q :: q in workers && q != lru[0].port ==> LastUse(uses, lru[0].port) < LastUse(uses, q)
  {
    forall q | q in workers && q != lru[0].port
      ensures LastUse(uses, lru[0].port) < LastUse(uses, q)
    {
      var e := Find(lru, q).value;
      var i :| 0 <= i < |lru| && lru[i] == e;
    }
  }

  lemma OnlyOwner(t: Table, e: Entry)
    requires t.Ok() && e in t.lru
    ensures e.port in t.workers && forall s :: s in t.ports ==> (t.ports[s] == e.port <==> s == e.source)
  {
    forall s | s in t.ports && t.ports[s] == e.port
      ensures s == e.source
    {
      SameEntry(t.lru, e, Entry(t.ports[s], s));
    }
  }

  /** What a bind gives: the port it has, else the port offered if there is room, else the oldest one. */
  lemma BindGives(t: Table, src: Source, offered: Option<Port>)
    requires t.Ok() && (offered.Some? ==> offered.value !in t.workers)
    ensures
      var (next, port) := t.Bind(src, offered);
      && (src in t.ports ==> port == Some(t.ports[src]) && next.ports == t.ports && next.workers == t.workers)
      && (src !in t.ports && |t.lru| < MAX_UDP_PORT && offered.Some? ==>
            && port == offered && next.ports == t.ports[src := offered.value]
            && next.workers == t.workers[offered.value := src])
      && (t.Reuses(src, offered) ==> port == Some(t.lru[0].port) && next.workers == t.workers)
  {
  }

  /** An unbind takes the source, its port's worker and its entry out, and nothing else. */
  lemma UnbindRemoves(t: Table, src: Source)
    requires t.Ok()
    ensures
      var next := t.Unbind(src);
      && (forall s :: s in next.ports <==> s in t.ports && s != src)
      && (forall s :: s in next.ports ==> next.ports[s] == t.ports[s])
      && (forall p :: p in next.workers <==> p in t.workers && !(src in t.ports && t.ports[src] == p))
      && (forall p :: p in next.workers ==> next.workers[p] == t.workers[p])
      && (forall e :: e in next.lru <==> e in t.lru && e.source != src)
      && (src in t.ports ==> |next.lru| < |t.lru|)
  {
    if src in t.ports {
      TakeOut(t.ports, t.lru, t.workers, src);
      forall e | e in t.lru
        ensures e.port != t.ports[src] <==> e.source != src
      {
        OnlyOwner(t, e);
      }
    }
  }

  /** Over any run: a source that is unbound and binds again gets the new association offered, with its own worker. */
  lemma RebindOpensAnew(events: seq<Event>, src: Source, offered: Port)
    requires AllowedRun(Empty(), events) && src in Run(Empty(), events).table.ports
    requires offered !in Run(Empty(), events).table.Unbind(src).workers
    ensures
      var (next, port) := Run(Empty(), events).table.Unbind(src).Bind(src, Some(offered));
      && port == Some(offered) && src in next.ports && next.ports[src] == offered
      && offered in next.workers && next.workers[offered] == src
  {
    RunKeeps(Empty(), events);
    var past := Run(Empty(), events);
    UnbindRemoves(past.table, src);
    UnbindKeeps(past, src);
    BindGives(past.table.Unbind(src), src, Some(offered));
  }

  /** The port handed out is the one the source is bound to, and a worker serves it. */
  lemma BoundPortIsServed(p: Past, src: Source, offered: Option<Port>)
    requires p.Ok() && p.Allows(Event.Bind(src, offered))
    ensures var (next, port) := p.table.Bind(src, offered);
            && (port.None? <==> src !in p.table.ports && p.table.lru == [] && offered.None?)
            && (port.Some? ==> src in next.ports && next.ports[src] == port.value && port.value in next.workers)
  {
    if src in p.table.ports {
      assert Entry(p.table.ports[src], src) in p.table.lru;
    } else if p.table.lru != [] {
      assert p.table.lru[0] in p.table.lru;
    }
  }

  // ---------------------------------------------------------------------------------------------
  // Where replies go
  // ---------------------------------------------------------------------------------------------

  /** Replies stay with the right source if and only if no port is reused: the worker is not told. */
  lemma ReuseMisdirectsIff(p: Past, e: Event)
    requires p.Ok() && p.Allows(e) && p.table.Aligned()
    ensures p.After(e).table.Aligned() <==> !(e.Bind? && p.table.Reuses(e.src, e.offered))
  {
    match e
    case Unbind(src) => UnbindAligned(p.table, src);
    case Bind(src, offered) =>
      if p.table.Reuses(src, offered) {
        ReuseMisdirects(p.table, src, offered);
      } else if src !in p.table.ports && |p.table.lru| < MAX_UDP_PORT && offered.Some? {
        OpenAligned(p.table, src, offered.value);
      }
  }

  lemma UnbindAligned(t: Table, src: Source)
    requires t.Ok() && t.Aligned()
    ensures t.Unbind(src).Aligned()
  {
    if src in t.ports {
      OnlyOwner(t, Entry(t.ports[src], src));
    }
  }

  lemma OpenAligned(t: Table, src: Source, port: Port)
    requires t.Ok() && t.Aligned() && port !in t.workers
    ensures Table(t.ports[src := port], t.lru, t.workers[port := src]).Aligned()
  {
  }

  lemma ReuseMisdirects(t: Table, src: Source, offered: Option<Port>)
    requires t.Ok() && t.Aligned() && t.Reuses(src, offered)
    ensures !t.Bind(src, offered).0.Aligned()
  {
    var next, e := t.Bind(src, offered).0, t.lru[0];
    assert e in t.lru;
    assert next.ports[src] == e.port;
    assert next.workers[e.port] == e.source;
  }

  ghost predicate AlwaysAligned(p: Past, events: seq<Event>)
    decreases |events|
  {
    p.table.Aligned() && (events != [] ==> AlwaysAligned(p.After(events[0]), events[1..]))
  }

  predicate NeverReuses(p: Past, events: seq<Event>)
    decreases |events|
  {
    events != [] ==>
      && !(events[0].Bind? && p.table.Reuses(events[0].src, events[0].offered))
      && NeverReuses(p.After(events[0]), events[1..])
  }

  /** A run sends every reply to the right source throughout exactly when it never reuses a port. */
  lemma {:induction false} RunAlignedIff(p: Past, events: seq<Event>)
    requires p.Ok() && AllowedRun(p, events) && p.table.Aligned()
    ensures AlwaysAligned(p, events) <==> NeverReuses(p, events)
    decreases |events|
  {
    if events != [] {
      StepKeeps(p, events[0]);
      ReuseMisdirectsIff(p, events[0]);
      if p.After(events[0]).table.Aligned() {
        RunAlignedIff(p.After(events[0]), events[1..]);
      }
    }
  }

  // ---------------------------------------------------------------------------------------------
  // The imperative table
  // ---------------------------------------------------------------------------------------------

  class Redirector {
    var datagrams: map<Port, Source>
    var datagramMap: map<Source, Port>
    var udpLru: seq<Entry>

    function View(): Table
      reads this
    {
      Table(datagramMap, udpLru, datagrams)
    }

    constructor ()
      ensures View() == Empty().table
    {
      datagrams, datagramMap, udpLru := map[], map[], [];
    }

    /** `offered` is the port of a new association, or none if it cannot be offered. */
    method BindLocalUdpPort(src: Source, offered: Option<Port>) returns (port: Option<Port>)
      modifies this
      ensures (View(), port) == old(View()).Bind(src, offered)
    {
      if src in datagramMap {
        var localPort := datagramMap[src];
        udpLru := Promote(udpLru, localPort);
        return Some(localPort);
      }
      if |udpLru| < MAX_UDP_PORT && offered.Some? {
        var localPort := offered.value;
        datagrams := datagrams[localPort := src];
        datagramMap := datagramMap[src := localPort];
        udpLru := Put(udpLru, Entry(localPort, src));
        return Some(localPort);
      }
      if udpLru == [] {
        return None;
      }
      var oldest := udpLru[0];
      udpLru := udpLru[1..];
      datagramMap := datagramMap - {oldest.source};
      datagramMap := datagramMap[src := oldest.port];
      udpLru := Put(udpLru, Entry(oldest.port, src));
      return Some(oldest.port);
    }

    method UnbindLocalUdpPort(src: Source)
      modifies this
      ensures View() == old(View()).Unbind(src)
    {
      if src in datagramMap {
        var localPort := datagramMap[src];
        datagrams := datagrams - {localPort};
        udpLru := Without(udpLru, localPort);
        datagramMap := datagramMap - {src};
      }
    }
  }
}
