/** The cache-or-fetch logic of client.py. The socket exchange with the parent
    server is an `Upstream` object whose replies are fixed by a function of the
    exchange number and what is sent; the current time is a parameter. */
module Resolver {
  import opened Common
  import opened Dns
  import opened RecordCache

  /** errno of ENETUNREACH on Linux. */
  const ENETUNREACH: int := 101

  const TIMEOUT_MESSAGE: string := "Cant resolve request: is network unreachable?"
  const UNREACHABLE_MESSAGE: string := "Cant resolve: network is unreachable"

  /** The parent server, as a (host, port) pair. */
  datatype Address = Address(host: string, port: int)

  /** A query message as `_resolve_query` composes it: a transaction id and a package. */
  datatype Message = Message(id: nat, package: Package)

  /** What goes upstream: the client's request as received (`resolve`), or a
      composed query (`resolve_query`). */
  datatype Outbound = Forwarded(bytes: seq<byte>) | Composed(message: Message)

  datatype Exchange = Exchange(server: Address, sent: Outbound)

  /** What one exchange yields: a datagram, a receive timeout, or another OSError. */
  datatype Outcome = Reply(payload: seq<byte>) | Timeout | SocketError(errno: int)

  /** What a resolution can end in other than a list of answers: the
      ClientError the source raises, an OSError it re-raises, a parser failure
      on the reply or on the request, and the IndexError of a request with no
      question. */
  datatype ResolveError =
    | ClientError(message: string)
    | OsError(errno: int)
    | MalformedReply(reason: ParseError)
    | MalformedRequest(reason: ParseError)
    | NoQuestion

  // ---------------------------------------------------------------- the outbound query

  /** Flags with only recursion-desired set. */
  function RequestFlags(): (f: Flags)
    ensures FlagsInRange(f)
    ensures PackFlags(f) == 0x0100
    ensures ParseFlags(0x0100) == f
  {
    Flags(0, 0, 0, 0, 1, 0, 0, 0, 0, 0)
  }

  /** The query `_resolve_query` sends for `q`: the given id, recursion
      desired and nothing else in the flags word, the one question, and empty
      answer, authority and additional sections. */
  function OutboundQuery(q: Query, id: nat): (m: Message)
    requires 1 <= id <= 0xFFFF
    ensures m.id == id && 1 <= m.id <= 0xFFFF
    ensures PackFlags(m.package.flags) == 0x0100
    ensures m.package.queries == [q]
    ensures m.package.answers == [] && m.package.authorities == [] && m.package.additional == []
  {
    Message(id, Package(RequestFlags(), [q], [], [], []))
  }

  // ---------------------------------------------------------------- the network

  /** The parent server as the client sees it: every exchange is logged, and
      the n-th exchange yields `respond(n, exchange)`. */
  class Upstream {
    var log: seq<Exchange>
    const respond: (nat, Exchange) -> Outcome

    constructor (respond: (nat, Exchange) -> Outcome)
      ensures log == [] && this.respond == respond
    {
      log := [];
      this.respond := respond;
    }

    /** One sendto/recv round trip. */
    method Send(e: Exchange) returns (o: Outcome)
      modifies this
      ensures log == old(log) + [e]
      ensures o == respond(|old(log)|, e)
    {
      o := respond(|log|, e);
      log := log + [e];
    }
  }

  // ---------------------------------------------------------------- specification

  /** The record `put` stores for an answer received at `now`. */
  function RecordOf(a: Answer, now: int): Record
  {
    Record(a.data, a.ttl, now)
  }

  /** The store after putting each of `rs` in turn under its own type and name. */
  function StoreAll(s: Store, rs: seq<Answer>, now: int): (s': Store)
    requires Complete(s)
    ensures Complete(s')
    decreases |rs|
  {
    if rs == [] then s
    else
      var last := rs[|rs| - 1];
      Stored(StoreAll(s, rs[..|rs| - 1], now), last.rtype, last.name, RecordOf(last, now))
  }

  /** The last of `rs` with type t and name key, if any. */
  function LastFor(rs: seq<Answer>, t: RecordType, key: string): (r: Option<Answer>)
    ensures r.Some? ==> r.value in rs && r.value.rtype == t && r.value.name == key
    ensures r.None? ==> forall a :: a in rs ==> a.rtype != t || a.name != key
    ensures r.Some? ==> exists i :: 0 <= i < |rs| && rs[i] == r.value
                          && forall j :: i < j < |rs| ==> rs[j].rtype != t || rs[j].name != key
    decreases |rs|
  {
    if rs == [] then None
    else if rs[|rs| - 1].rtype == t && rs[|rs| - 1].name == key then Some(rs[|rs| - 1])
    else LastFor(rs[..|rs| - 1], t, key)
  }

  /** What the store holds after an exchange with outcome `o`, or the error
      the exchange ends in (`_resolve_bytes`). */
  function Handled(s: Store, o: Outcome, now: int): (r: Result<Store, ResolveError>)
    requires Complete(s)
    ensures r.Success? ==> Complete(r.value)
  {
    match o
    case Timeout => Failure(ClientError(TIMEOUT_MESSAGE))
    case SocketError(e) =>
      if e == ENETUNREACH then Failure(ClientError(UNREACHABLE_MESSAGE)) else Failure(OsError(e))
    case Reply(payload) =>
      match PackageOf(payload)
      case Failure(e) => Failure(MalformedReply(e))
      case Success(p) => Success(StoreAll(s, p.answers + p.authorities + p.additional, now))
  }

  /** The records the cache yields for a lookup: zero or one. */
  function RecordsOf(r: Option<Record>): seq<Record>
  {
    if r.Some? then [r.value] else []
  }

  /** One answer per record, carrying the query's type and name. */
  function AnswersFor(q: Query, records: seq<Record>): seq<Answer>
  {
    seq(|records|, i requires 0 <= i < |records| => Answer(q.rtype, q.name, records[i].ttl, records[i].value))
  }

  /** The answers for `q` and the new store: served from `s` on a hit, after
      an exchange with outcome `o` on a miss. Whatever the outcome, at most
      one answer comes back and it carries the query's type and name; a hit
      or a failed exchange leaves the store as it was. */
  function Answered(s: Store, q: Query, o: Outcome, now: int): (r: (Result<seq<Answer>, ResolveError>, Store))
    requires Complete(s)
    ensures Complete(r.1)
    ensures r.0.Success? ==> |r.0.value| <= 1 && forall a :: a in r.0.value ==> a.rtype == q.rtype && a.name == q.name
    ensures Lookup(s, q.rtype, q.name).Some? || r.0.Failure? ==> r.1 == s
  {
    match Lookup(s, q.rtype, q.name)
    case Some(rec) => (Success(AnswersFor(q, [rec])), s)
    case None =>
      match Handled(s, o, now)
      case Failure(e) => (Failure(e), s)
      case Success(s') => (Success(AnswersFor(q, RecordsOf(Lookup(s', q.rtype, q.name)))), s')
  }

  // ---------------------------------------------------------------- the client

  class Client {
    const cache: Cache

    constructor (cache: Cache)
      ensures this.cache == cache
    {
      this.cache := cache;
    }

    /** The answers-building loop of `resolve_query` and `resolve`. */
    method BuildAnswers(q: Query, records: seq<Record>) returns (answers: seq<Answer>)
      ensures answers == AnswersFor(q, records)
    {
      answers := [];
      for i := 0 to |records|
        invariant |answers| == i
        invariant forall j :: 0 <= j < i ==>
                    answers[j] == Answer(q.rtype, q.name, records[j].ttl, records[j].value)
      {
        answers := answers + [Answer(q.rtype, q.name, records[i].ttl, records[i].value)];
      }
      assert answers == AnswersFor(q, records);
    }

    /** Puts every record of one section into the cache, in order. */
    method StoreSection(section: seq<Answer>, now: int)
      requires cache.Valid()
      modifies cache
      ensures cache.Valid()
      ensures cache.store == StoreAll(old(cache.store), section, now)
    {
      for i := 0 to |section|
        invariant cache.Valid()
        invariant cache.store == StoreAll(old(cache.store), section[..i], now)
      {
        var a := section[i];
        TypeCodeSupported(a.rtype);
        var err := cache.Put(TypeCode(a.rtype), a.name, a.data, a.ttl, now);
        assert section[..i + 1][..i] == section[..i];
      }
      assert section[..|section|] == section;
    }

    /** `_resolve_bytes`: one exchange, then either the error it maps to, or
        the three sections of the reply stored in order. */
    method ResolveBytes(out: Outbound, server: Address, net: Upstream, now: int) returns (err: Option<ResolveError>)
      requires cache.Valid()
      modifies cache, net
      ensures cache.Valid()
      ensures net.log == old(net.log) + [Exchange(server, out)]
      ensures match Handled(old(cache.store), net.respond(|old(net.log)|, Exchange(server, out)), now)
              case Failure(e) => err == Some(e) && cache.store == old(cache.store)
              case Success(s') => err == None && cache.store == s'
    {
      var outcome := net.Send(Exchange(server, out));
      match outcome
      case Timeout =>
        return Some(ClientError(TIMEOUT_MESSAGE));
      case SocketError(e) =>
        if e == ENETUNREACH {
          return Some(ClientError(UNREACHABLE_MESSAGE));
        }
        return Some(OsError(e));
      case Reply(payload) =>
        var parsed := Parse(payload);
        if parsed.Failure? {
          return Some(MalformedReply(parsed.error));
        }
        var p := parsed.value;
        ghost var s0 := cache.store;
        StoreSection(p.answers, now);
        StoreSection(p.authorities, now);
        StoreSection(p.additional, now);
        StoreAllAppend(s0, p.answers, p.authorities, now);
        StoreAllAppend(s0, p.answers + p.authorities, p.additional, now);
        return None;
    }

    /** Looks `q` up, fetches with `out` on a miss, and builds the answers. */
    method Serve(q: Query, out: Outbound, server: Address, net: Upstream, now: int)
      returns (r: Result<seq<Answer>, ResolveError>)
      requires cache.Valid()
      modifies cache, net
      ensures cache.Valid()
      ensures (r, cache.store) ==
              Answered(old(cache.store), q, net.respond(|old(net.log)|, Exchange(server, out)), now)
      ensures net.log ==
              if old(Lookup(cache.store, q.rtype, q.name)).Some? then old(net.log)
              else old(net.log) + [Exchange(server, out)]
    {
      ghost var s0 := cache.store;
      ghost var o := net.respond(|net.log|, Exchange(server, out));
      TypeCodeSupported(q.rtype);
      var got := cache.Get(TypeCode(q.rtype), q.name);
      var record := got.value;
      if record.None? {
        var err := ResolveBytes(out, server, net, now);
        if err.Some? {
          assert Handled(s0, o, now) == Failure(err.value);
          return Failure(err.value);
        }
        assert Handled(s0, o, now) == Success(cache.store);
        got := cache.Get(TypeCode(q.rtype), q.name);
        record := got.value;
      }
      var answers := BuildAnswers(q, RecordsOf(record));
      return Success(answers);
    }

    /** `resolve_query`: serves `q`, composing the outbound query with `id`
        (the source draws it at random from 1..65535) on a miss. */
    method ResolveQuery(q: Query, server: Address, id: nat, net: Upstream, now: int)
      returns (r: Result<seq<Answer>, ResolveError>)
      requires cache.Valid()
      requires 1 <= id <= 0xFFFF
      modifies cache, net
      ensures cache.Valid()
      ensures var sent := Exchange(server, Composed(OutboundQuery(q, id)));
              (r, cache.store) == Answered(old(cache.store), q, net.respond(|old(net.log)|, sent), now)
              && net.log == if old(Lookup(cache.store, q.rtype, q.name)).Some? then old(net.log) else old(net.log) + [sent]
    {
      r := Serve(q, Composed(OutboundQuery(q, id)), server, net, now);
    }

    /** `resolve`: serves the first question of the request, forwarding the
        request itself on a miss. */
    method Resolve(bytes: seq<byte>, server: Address, net: Upstream, now: int)
      returns (r: Result<seq<Answer>, ResolveError>)
      requires cache.Valid()
      modifies cache, net
      ensures cache.Valid()
      ensures PackageOf(bytes).Failure? ==>
                r == Failure(MalformedRequest(PackageOf(bytes).error))
                && cache.store == old(cache.store) && net.log == old(net.log)
      ensures PackageOf(bytes).Success? && PackageOf(bytes).value.queries == [] ==>
                r == Failure(NoQuestion) && cache.store == old(cache.store) && net.log == old(net.log)
      ensures PackageOf(bytes).Success? && PackageOf(bytes).value.queries != [] ==>
                var q := PackageOf(bytes).value.queries[0];
                var sent := Exchange(server, Forwarded(bytes));
                (r, cache.store) == Answered(old(cache.store), q, net.respond(|old(net.log)|, sent), now)
                && net.log == if old(Lookup(cache.store, q.rtype, q.name)).Some? then old(net.log) else old(net.log) + [sent]
    {
      var parsed := Parse(bytes);
      if parsed.Failure? {
        return Failure(MalformedRequest(parsed.error));
      }
      if parsed.value.queries == [] {
        return Failure(NoQuestion);
      }
      r := Serve(parsed.value.queries[0], Forwarded(bytes), server, net, now);
    }
  }

  // ---------------------------------------------------------------- properties

  /** Every supported type passes the cache's type check. */
  lemma TypeCodeSupported(t: RecordType)
    ensures TypeOf(TypeCode(t)) == Some(t)
  {
    match t
    case A =>
    case NS =>
    case PTR =>
    case AAAA =>
  }

  /** The last record of a non-empty run is stored after all the others. */
  lemma StoreAllLast(s: Store, rs: seq<Answer>, now: int)
    requires Complete(s) && rs != []
    ensures var last := rs[|rs| - 1];
      StoreAll(s, rs, now) == Stored(StoreAll(s, rs[..|rs| - 1], now), last.rtype, last.name, RecordOf(last, now))
  {
  }

  /** Storing two runs of records one after the other is storing their concatenation. */
  lemma {:induction false} StoreAllAppend(s: Store, xs: seq<Answer>, ys: seq<Answer>, now: int)
    requires Complete(s)
    ensures StoreAll(StoreAll(s, xs, now), ys, now) == StoreAll(s, xs + ys, now)
    decreases |ys|
  {
    if ys == [] {
      assert xs + ys == xs;
    } else {
      var front, last := ys[..|ys| - 1], ys[|ys| - 1];
      var mid := StoreAll(s, xs, now);
      var all := xs + ys;
      assert all[..|all| - 1] == xs + front && all[|all| - 1] == last;
      StoreAllLast(s, all, now);
      StoreAllLast(mid, ys, now);
      StoreAllAppend(s, xs, front, now);
    }
  }

  /** After storing `rs`, a lookup finds the last record of `rs` with that
      type and name, or what was there before when `rs` has none. */
  lemma {:induction false} StoreAllLookup(s: Store, rs: seq<Answer>, now: int, t: RecordType, key: string)
    requires Complete(s)
    ensures Lookup(StoreAll(s, rs, now), t, key) ==
            match LastFor(rs, t, key)
            case Some(a) => Some(RecordOf(a, now))
            case None => Lookup(s, t, key)
    decreases |rs|
  {
    if rs != [] {
      StoreAllLookup(s, rs[..|rs| - 1], now, t, key);
    }
  }

  /** Every record of a reply ends up in the cache under its own type and name. */
  lemma ReplyRecordsStored(s: Store, payload: seq<byte>, now: int, a: Answer)
    requires Complete(s)
    requires PackageOf(payload).Success?
    requires var p := PackageOf(payload).value; a in p.answers || a in p.authorities || a in p.additional
    ensures Handled(s, Reply(payload), now).Success?
    ensures Lookup(Handled(s, Reply(payload), now).value, a.rtype, a.name).Some?
  {
    var p := PackageOf(payload).value;
    StoreAllLookup(s, p.answers + p.authorities + p.additional, now, a.rtype, a.name);
  }

  /** A hit is answered from the cache alone: one answer with the query's type
      and name and the record's ttl and value, and the store unchanged. */
  lemma CacheHit(s: Store, q: Query, o: Outcome, now: int)
    requires Complete(s) && Lookup(s, q.rtype, q.name).Some?
    ensures var rec := Lookup(s, q.rtype, q.name).value;
            Answered(s, q, o, now) == (Success([Answer(q.rtype, q.name, rec.ttl, rec.value)]), s)
  {
    var rec := Lookup(s, q.rtype, q.name).value;
    assert AnswersFor(q, [rec]) == [Answer(q.rtype, q.name, rec.ttl, rec.value)];
  }

  /** A miss answered by a well-formed reply yields the last record of the
      reply for the query's type and name (answers, then authorities, then
      additional), or no answer when the reply has none. */
  lemma MissAnsweredFromReply(s: Store, q: Query, payload: seq<byte>, now: int)
    requires Complete(s) && Lookup(s, q.rtype, q.name).None?
    requires PackageOf(payload).Success?
    ensures var p := PackageOf(payload).value;
            var all := p.answers + p.authorities + p.additional;
            Answered(s, q, Reply(payload), now).0 ==
              Success(match LastFor(all, q.rtype, q.name)
                      case Some(a) => [Answer(q.rtype, q.name, a.ttl, a.data)]
                      case None => [])
  {
    var p := PackageOf(payload).value;
    var all := p.answers + p.authorities + p.additional;
    StoreAllLookup(s, all, now, q.rtype, q.name);
    assert Handled(s, Reply(payload), now) == Success(StoreAll(s, all, now));
    var found := LastFor(all, q.rtype, q.name);
    if found.Some? {
      var a := found.value;
      assert AnswersFor(q, [RecordOf(a, now)]) == [Answer(q.rtype, q.name, a.ttl, a.data)];
    } else {
      assert AnswersFor(q, []) == [];
    }
  }

  /** A failed exchange leaves the store as it was, and the error says why:
      a timeout or an unreachable network becomes ClientError, any other
      OSError is passed on as is. */
  lemma FailedExchange(s: Store, q: Query, o: Outcome, now: int)
    requires Complete(s) && Lookup(s, q.rtype, q.name).None?
    requires !o.Reply?
    ensures Answered(s, q, o, now).1 == s
    ensures Answered(s, q, o, now).0 ==
            if o.Timeout? then Failure(ClientError(TIMEOUT_MESSAGE))
            else if o.errno == ENETUNREACH then Failure(ClientError(UNREACHABLE_MESSAGE))
            else Failure(OsError(o.errno))
  {
  }

}
