/** Matchmaking: the queue of waiting connections and the handlers that
    pair them into rooms and forward room requests to the registry. Which
    connections are still open is an input (`live`), and so are the fresh
    room ids a room creation draws. */
module Matchmaking {
  import opened Wrappers
  import opened Entities
  import opened TickSpec
  import opened RoomEngine
  import opened Registry

  /** No connection is queued twice. */
  predicate NoDup(q: seq<string>) {
    forall i, j :: 0 <= i < j < |q| ==> q[i] != q[j]
  }

  /** The queue after a join: the id goes last unless it is already
      queued. */
  function Joined(q: seq<string>, x: string): (r: seq<string>)
    ensures NoDup(q) ==> NoDup(r)
    ensures x in r && forall y :: y in q ==> y in r
    ensures forall y :: y in r ==> y in q || y == x
  {
    if x in q then q else q + [x]
  }

  /** Position of the first occurrence of `x` in `q`. */
  function IndexOf(q: seq<string>, x: string): (r: Option<nat>)
    ensures r.Some? ==> r.value < |q| && q[r.value] == x
    ensures r.None? <==> x !in q
  {
    if q == [] then None
    else if q[0] == x then Some(0)
    else match IndexOf(q[1..], x)
      case None => None
      case Some(i) => Some(i + 1)
  }

  /** The queue after a leave: the first occurrence of the id is cut out;
      an absent id changes nothing. */
  function Remove(q: seq<string>, x: string): (r: seq<string>)
  {
    match IndexOf(q, x)
    case None => q
    case Some(i) => q[..i] + q[i + 1..]
  }

  /** Reference definition: every entry other than `x`, in queue order. */
  function Without(q: seq<string>, x: string): (r: seq<string>)
  {
    if q == [] then [] else (if q[0] == x then [] else [q[0]]) + Without(q[1..], x)
  }

  /** Dropping `x` from a concatenation drops it from both parts. */
  lemma {:induction false} WithoutAppend(a: seq<string>, b: seq<string>, x: string)
    ensures Without(a + b, x) == Without(a, x) + Without(b, x)
    decreases |a|
  {
    if a == [] {
      assert a + b == b;
    } else {
      var h := if a[0] == x then [] else [a[0]];
      assert (a + b)[1..] == a[1..] + b;
      assert Without(a + b, x) == h + Without(a[1..] + b, x);
      WithoutAppend(a[1..], b, x);
      assert Without(a, x) == h + Without(a[1..], x);
    }
  }

  /** Leaving right after joining gives back the queue without `x`, the
      others in their order: a join followed by a leave is undone. */
  lemma {:induction false} JoinThenLeave(q: seq<string>, x: string)
    requires NoDup(q)
    ensures Remove(Joined(q, x), x) == Without(q, x)
  {
    RemoveIsWithout(Joined(q, x), x);
    if x !in q {
      WithoutAppend(q, [x], x);
      assert Without([x], x) == [];
    }
  }

  lemma {:induction false} WithoutAbsent(q: seq<string>, x: string)
    requires x !in q
    ensures Without(q, x) == q
    decreases |q|
  {
    if q != [] {
      assert q[0] != x;
      assert x !in q[1..];
      WithoutAbsent(q[1..], x);
      assert q == [q[0]] + q[1..];
    }
  }

  /** In a queue without duplicates, cutting out the id is the same as
      keeping every other entry in order: nothing else is lost or moved,
      and the id is gone. */
  lemma {:induction false} RemoveIsWithout(q: seq<string>, x: string)
    requires NoDup(q)
    ensures Remove(q, x) == Without(q, x)
    ensures x !in Remove(q, x) && NoDup(Remove(q, x))
    ensures |Remove(q, x)| == if x in q then |q| - 1 else |q|
  {
    match IndexOf(q, x)
    case None =>
      WithoutAbsent(q, x);
    case Some(i) =>
      RemoveCut(q, x, i);
      WithoutCut(q, x, i);
  }

  /** Dropping the occurrences of `x` from a queue that holds it only at
      `i` is cutting position `i` out. */
  lemma {:induction false} WithoutCut(q: seq<string>, x: string, i: nat)
    requires i < |q| && q[i] == x && x !in q[..i] && x !in q[i + 1..]
    ensures Without(q, x) == q[..i] + q[i + 1..]
    decreases i
  {
    if i == 0 {
      assert q[1..] == q[i + 1..];
      WithoutAbsent(q[1..], x);
    } else {
      var t := q[1..];
      assert t[..i - 1] == q[1..i] && t[i..] == q[i + 1..];
      assert x !in t[..i - 1];
      WithoutCut(t, x, i - 1);
      assert q[0] != x;
      assert [q[0]] + q[1..i] == q[..i];
    }
  }

  /** Cutting the only occurrence of `x`, at `i`, out of a queue without
      duplicates leaves none and keeps the others distinct. */
  lemma RemoveCut(q: seq<string>, x: string, i: nat)
    requires NoDup(q) && i < |q| && q[i] == x
    ensures x !in q[..i] && x !in q[i + 1..]
    ensures NoDup(q[..i] + q[i + 1..])
  {
    assert x !in q[..i] by {
      forall j | 0 <= j < i ensures q[j] != x { }
    }
    assert x !in q[i + 1..] by {
      forall j | i + 1 <= j < |q| ensures q[j] != x { }
    }
    var r := q[..i] + q[i + 1..];
    forall a, b | 0 <= a < b < |r|
      ensures r[a] != r[b]
    {
      var a' := if a < i then a else a + 1;
      var b' := if b < i then b else b + 1;
      assert r[a] == q[a'] && r[b] == q[b'];
    }
  }

  /** Two connections put in one room: `a` was queued before `b`. */
  datatype Pair = Pair(a: string, b: string)

  /** What one run of the matching loop yields: the rooms' pairs in order
      of creation, and the queue left behind. */
  datatype Matching = Matching(pairs: seq<Pair>, rest: seq<string>)

  /** Reference definition of the matching loop: while two or more are
      queued, the two oldest are taken off; both open makes a room, a
      closed one is dropped and an open partner goes back to the front. */
  function Match(q: seq<string>, live: set<string>): (m: Matching)
    ensures |m.rest| < 2
    decreases |q|
  {
    if |q| < 2 then Matching([], q)
    else
      var a, b, t := q[0], q[1], q[2..];
      if a in live && b in live then
        var m := Match(t, live);
        Matching([Pair(a, b)] + m.pairs, m.rest)
      else if a in live then Match([a] + t, live)
      else if b in live then Match([b] + t, live)
      else Match(t, live)
  }

  /** The connections of the pairs, in order. */
  function Flat(pairs: seq<Pair>): (r: seq<string>)
    ensures |r| == 2 * |pairs|
  {
    if pairs == [] then [] else [pairs[0].a, pairs[0].b] + Flat(pairs[1..])
  }

  /** The open connections of a queue, in order. */
  function LiveOf(q: seq<string>, live: set<string>): (r: seq<string>)
  {
    if q == [] then [] else (if q[0] in live then [q[0]] else []) + LiveOf(q[1..], live)
  }

  lemma {:induction false} LiveOfAppend(a: seq<string>, b: seq<string>, live: set<string>)
    ensures LiveOf(a + b, live) == LiveOf(a, live) + LiveOf(b, live)
    decreases |a|
  {
    if a == [] {
      assert a + b == b;
    } else {
      LiveOfAppend(a[1..], b, live);
      var h := if a[0] in live then [a[0]] else [];
      assert (a + b)[1..] == a[1..] + b;
      assert (a + b)[0] == a[0];
      assert LiveOf(a + b, live) == h + LiveOf(a[1..] + b, live);
      assert LiveOf(a, live) == h + LiveOf(a[1..], live);
    }
  }

  /** Every pair is of two open connections, and the pairs take the open
      connections of the queue in queue order, two at a time: no open
      connection is skipped or reordered, and the ones not paired are the
      open part of the queue left behind. */
  lemma {:induction false} MatchTakesLiveInOrder(q: seq<string>, live: set<string>)
    ensures var m := Match(q, live);
      && (forall p :: p in m.pairs ==> p.a in live && p.b in live)
      && Flat(m.pairs) + LiveOf(m.rest, live) == LiveOf(q, live)
    decreases |q|
  {
    if |q| >= 2 {
      var a, b, t := q[0], q[1], q[2..];
      assert q == [a, b] + t;
      LiveOfAppend([a, b], t, live);
      assert LiveOf([a, b], live) == (if a in live then [a] else []) + (if b in live then [b] else []) by {
        assert [a, b][1..] == [b];
        assert [b][1..] == [];
      }
      LiveOfAppend([a], t, live);
      assert LiveOf([a], live) == (if a in live then [a] else []) by {
        assert [a][1..] == [];
      }
      if a in live && b in live {
        MatchTakesLiveInOrder(t, live);
        var m := Match(t, live);
        assert Flat([Pair(a, b)] + m.pairs) == [a, b] + Flat(m.pairs) by {
          assert ([Pair(a, b)] + m.pairs)[1..] == m.pairs;
        }
      } else if a in live {
        MatchTakesLiveInOrder([a] + t, live);
      } else if b in live {
        MatchTakesLiveInOrder([b] + t, live);
        LiveOfAppend([b], t, live);
        assert LiveOf([b], live) == [b] by {
          assert [b][1..] == [];
        }
      } else {
        MatchTakesLiveInOrder(t, live);
      }
    }
  }

  /** Matching only takes from the queue: every paired or remaining
      connection was queued. */
  lemma {:induction false} MatchFromQueue(q: seq<string>, live: set<string>)
    ensures var m := Match(q, live);
      forall x :: x in Flat(m.pairs) || x in m.rest ==> x in q
    decreases |q|
  {
    if |q| >= 2 {
      var a, b, t := q[0], q[1], q[2..];
      assert forall x :: x in t ==> x in q;
      if a in live && b in live {
        MatchFromQueue(t, live);
        var m := Match(t, live);
        assert Flat([Pair(a, b)] + m.pairs) == [a, b] + Flat(m.pairs) by {
          assert ([Pair(a, b)] + m.pairs)[1..] == m.pairs;
        }
      } else if a in live {
        MatchFromQueue([a] + t, live);
        assert forall x :: x in [a] + t ==> x in q;
      } else if b in live {
        MatchFromQueue([b] + t, live);
        assert forall x :: x in [b] + t ==> x in q;
      } else {
        MatchFromQueue(t, live);
      }
    }
  }

  /** From a queue without duplicates, no connection is put in two rooms,
      and none is both paired and left queued. */
  lemma {:induction false} MatchNoDup(q: seq<string>, live: set<string>)
    requires NoDup(q)
    ensures var m := Match(q, live); NoDup(Flat(m.pairs) + m.rest)
    decreases |q|
  {
    if |q| >= 2 {
      var a, b, t := q[0], q[1], q[2..];
      assert a !in t && b !in t && a != b by {
        assert forall j :: 0 <= j < |t| ==> t[j] == q[j + 2];
      }
      assert NoDup(t) by {
        assert forall j :: 0 <= j < |t| ==> t[j] == q[j + 2];
      }
      if a in live && b in live {
        MatchNoDup(t, live);
        MatchFromQueue(t, live);
        var m := Match(t, live);
        var s := Flat(m.pairs) + m.rest;
        assert Flat([Pair(a, b)] + m.pairs) == [a, b] + Flat(m.pairs) by {
          assert ([Pair(a, b)] + m.pairs)[1..] == m.pairs;
        }
        assert Flat([Pair(a, b)] + m.pairs) + m.rest == [a, b] + s;
        assert forall x :: x in s ==> x in t;
        NoDupCons(b, s);
        NoDupCons(a, [b] + s);
        assert [a] + ([b] + s) == [a, b] + s;
      } else if a in live {
        NoDupCons(a, t);
        MatchNoDup([a] + t, live);
      } else if b in live {
        NoDupCons(b, t);
        MatchNoDup([b] + t, live);
      } else {
        MatchNoDup(t, live);
      }
    }
  }

  lemma NoDupCons(x: string, s: seq<string>)
    requires NoDup(s) && x !in s
    ensures NoDup([x] + s)
  {
    var r := [x] + s;
    forall i, j | 0 <= i < j < |r|
      ensures r[i] != r[j]
    {
      assert r[j] == s[j - 1];
      if i > 0 {
        assert r[i] == s[i - 1];
      }
    }
  }

  /** The two `matchFound` messages of one room. */
  function Found(roomId: string, p: Pair): seq<Emit> {
    [Emit(ToPlayer(p.a), MatchFound(roomId, p.a, p.b)),
     Emit(ToPlayer(p.b), MatchFound(roomId, p.b, p.a))]
  }

  /** The queue after the two oldest are taken off and a closed one is
      found among them: the open one, if any, goes back to the front. It
      matches as the old queue did. */
  function Requeued(q: seq<string>, live: set<string>): (r: seq<string>)
    requires 2 <= |q| && (q[0] !in live || q[1] !in live)
    ensures |r| < |q| && Match(r, live) == Match(q, live)
  {
    if q[0] in live then [q[0]] + q[2..]
    else if q[1] in live then [q[1]] + q[2..]
    else q[2..]
  }

  /** A step of the matching loop that pairs the two oldest, both open:
      the pair comes first, then whatever the rest of the queue matches. */
  lemma PairStep(q: seq<string>, live: set<string>)
    requires 2 <= |q| && q[0] in live && q[1] in live
    ensures Match(q, live) == Then([Pair(q[0], q[1])], Match(q[2..], live))
  {
  }

  /** Pairs found so far followed by one more pair and a later run. */
  lemma ThenPair(done: seq<Pair>, p: Pair, m: Matching)
    ensures Then(done, Then([p], m)) == Then(done + [p], m)
    ensures Then(done + [p], m).pairs[|done|] == p
  {
    assert done + ([p] + m.pairs) == (done + [p]) + m.pairs;
  }

  /** The messages of the first `n` rooms, the `i`-th made under id
      `roomIds[i]`. */
  function FoundAll(pairs: seq<Pair>, roomIds: seq<string>, n: nat): (r: seq<Emit>)
    requires n <= |pairs| && n <= |roomIds|
    ensures |r| == 2 * n
  {
    if n == 0 then [] else FoundAll(pairs, roomIds, n - 1) + Found(roomIds[n - 1], pairs[n - 1])
  }

  /** Every room's two players hear of the same room, each named as
      itself with the other as opponent, each on its own connection. */
  lemma {:induction false} FoundAllSwapped(pairs: seq<Pair>, roomIds: seq<string>, n: nat)
    requires n <= |pairs| && n <= |roomIds|
    ensures forall i :: 0 <= i < n ==>
      && FoundAll(pairs, roomIds, n)[2 * i] == Emit(ToPlayer(pairs[i].a), MatchFound(roomIds[i], pairs[i].a, pairs[i].b))
      && FoundAll(pairs, roomIds, n)[2 * i + 1] == Emit(ToPlayer(pairs[i].b), MatchFound(roomIds[i], pairs[i].b, pairs[i].a))
    decreases n
  {
    if n > 0 {
      FoundAllSwapped(pairs, roomIds, n - 1);
      var prev := FoundAll(pairs, roomIds, n - 1);
      assert FoundAll(pairs, roomIds, n) == prev + Found(roomIds[n - 1], pairs[n - 1]);
      forall i | 0 <= i < n
        ensures FoundAll(pairs, roomIds, n)[2 * i] == Emit(ToPlayer(pairs[i].a), MatchFound(roomIds[i], pairs[i].a, pairs[i].b))
        ensures FoundAll(pairs, roomIds, n)[2 * i + 1] == Emit(ToPlayer(pairs[i].b), MatchFound(roomIds[i], pairs[i].b, pairs[i].a))
      {
        if i < n - 1 {
          assert FoundAll(pairs, roomIds, n)[2 * i] == prev[2 * i];
          assert FoundAll(pairs, roomIds, n)[2 * i + 1] == prev[2 * i + 1];
        }
      }
    }
  }

  /** One run of the loop after a step: the pairs made so far, then what
      the rest of the queue yields. */
  function Then(done: seq<Pair>, m: Matching): Matching {
    Matching(done + m.pairs, m.rest)
  }

  /** The first `n` room ids, the ones a matching run of `n` pairs used. */
  function Taken(ids: seq<string>, n: nat): (r: set<string>)
    requires n <= |ids|
    ensures forall i :: 0 <= i < n ==> ids[i] in r
  {
    if n == 0 then {} else Taken(ids, n - 1) + {ids[n - 1]}
  }

  /** Exactly the first `n` ids are taken. */
  lemma {:induction false} TakenExact(ids: seq<string>, n: nat, k: string)
    requires n <= |ids|
    ensures k in Taken(ids, n) <==> exists i :: 0 <= i < n && ids[i] == k
  {
    if n > 0 {
      TakenExact(ids, n - 1, k);
    }
  }

  /** With distinct ids, the next id is not yet taken. */
  lemma TakenFresh(ids: seq<string>, n: nat)
    requires NoDup(ids) && n < |ids|
    ensures ids[n] !in Taken(ids, n)
  {
    TakenExact(ids, n, ids[n]);
  }

  /** The fresh room ids hold at least one id per room the run makes, and
      are all different. */
  ghost predicate EnoughIds(q: seq<string>, live: set<string>, roomIds: seq<string>) {
    |Match(q, live).pairs| <= |roomIds| && NoDup(roomIds)
  }

  class Matchmaker {
    var queue: seq<string>
    const registry: RoomRegistry

    ghost predicate Valid()
      reads this, registry, registry.rooms.Values
    {
      NoDup(queue) && registry.Valid()
    }

    constructor(registry: RoomRegistry)
      requires registry.Valid()
      ensures Valid() && queue == [] && this.registry == registry
    {
      queue := [];
      this.registry := registry;
    }

    /** The matching loop, with the connections open at the time and the
        ids for the rooms it creates. It ends with fewer than two queued;
        the room of the i-th pair is registered under the i-th id and holds
        that pair's two connections, and the other rooms stay. */
    method AttemptMatch(live: set<string>, roomIds: seq<string>, now: int) returns (out: seq<Emit>)
      requires Valid() && EnoughIds(queue, live, roomIds)
      modifies this, registry
      ensures Valid() && registry.nextTimer == old(registry.nextTimer)
      ensures var m := Match(old(queue), live);
        && queue == m.rest
        && out == FoundAll(m.pairs, roomIds, |m.pairs|)
        && Opened(registry.rooms, old(registry.rooms), roomIds, m.pairs, now)
      ensures var n := |Match(old(queue), live).pairs|;
        && (forall i :: 0 <= i < n ==> roomIds[i] in registry.rooms && registry.rooms[roomIds[i]] !in old(registry.rooms).Values)
        && (forall i, j :: 0 <= i < j < n ==> registry.rooms[roomIds[i]] != registry.rooms[roomIds[j]])
    {
      MatchNoDup(queue, live);
      var rest;
      ghost var made;
      rest, out, made := PairUp(queue, live, roomIds, now);
      queue := rest;
    }

    /** A `joinQueue` from `socketId`: the connection is queued last
        unless it already is, then the matching loop runs. */
    method JoinQueue(socketId: string, live: set<string>, roomIds: seq<string>, now: int) returns (out: seq<Emit>)
      requires Valid() && EnoughIds(Joined(queue, socketId), live, roomIds)
      modifies this, registry
      ensures Valid() && registry.nextTimer == old(registry.nextTimer)
      ensures var m := Match(Joined(old(queue), socketId), live);
        && queue == m.rest
        && out == FoundAll(m.pairs, roomIds, |m.pairs|)
        && Opened(registry.rooms, old(registry.rooms), roomIds, m.pairs, now)
      ensures var n := |Match(Joined(old(queue), socketId), live).pairs|;
        && (forall i :: 0 <= i < n ==> roomIds[i] in registry.rooms && registry.rooms[roomIds[i]] !in old(registry.rooms).Values)
        && (forall i, j :: 0 <= i < j < n ==> registry.rooms[roomIds[i]] != registry.rooms[roomIds[j]])
    {
      queue := Joined(queue, socketId);
      out := AttemptMatch(live, roomIds, now);
    }

    /** A `leaveQueue` from `socketId`: the connection leaves the queue if
        it is queued, and it leaves every room holding it. */
    method LeaveQueue(socketId: string)
      requires Valid()
      modifies this, registry, registry.rooms.Values
      ensures Valid()
      ensures queue == Without(old(queue), socketId) && socketId !in queue
      ensures registry.rooms == old(registry.rooms) && old(registry.nextTimer) <= registry.nextTimer
      ensures forall k :: k in registry.rooms ==>
        LeftBy(registry.rooms[k], socketId, old(registry.nextTimer), registry.nextTimer)
    {
      RemoveIsWithout(queue, socketId);
      queue := Remove(queue, socketId);
      registry.LeaveRoomIfAny(socketId);
    }

    /** A `ready` from `socketId` for the room `roomId`: an unknown room
        changes nothing; otherwise that room takes the player's ready. */
    method Ready(socketId: string, roomId: string, now: int, draws: seq<real>) returns (out: seq<Emit>)
      requires Valid()
      requires roomId in registry.rooms ==>
        |draws| == |registry.rooms[roomId].players| && forall k :: 0 <= k < |draws| ==> 0.0 <= draws[k] < 1.0
      modifies if roomId in registry.rooms then {registry.rooms[roomId]} else {}
      ensures Valid()
      ensures roomId !in registry.rooms ==> out == []
      ensures roomId in registry.rooms ==> Readied(registry.rooms[roomId], socketId, now, draws, out)
    {
      if roomId !in registry.rooms {
        return [];
      }
      var room := registry.rooms[roomId];
      out := room.SetReady(socketId, now, draws);
    }

    /** A `hit` from `socketId` on enemy `enemyId` in the room `roomId`:
        an unknown room changes nothing; otherwise that room judges it. */
    method Hit(socketId: string, roomId: string, enemyId: int, word: Option<string>, now: int) returns (out: seq<Emit>)
      requires Valid()
      modifies if roomId in registry.rooms then {registry.rooms[roomId]} else {}
      ensures Valid()
      ensures roomId !in registry.rooms ==> out == []
      ensures roomId in registry.rooms ==> HitBy(registry.rooms[roomId], socketId, enemyId, word, now, out)
    {
      if roomId !in registry.rooms {
        return [];
      }
      var room := registry.rooms[roomId];
      out := room.HandleHit(socketId, enemyId, word, now);
    }

    /** A `requestRoomState` from `socketId` for the room `roomId`: the
        requester alone is sent the room's state as it sees it, or nothing
        when the room is unknown. Nothing changes. */
    method RequestRoomState(socketId: string, roomId: string) returns (out: seq<Emit>)
      requires Valid()
      ensures roomId !in registry.rooms ==> out == []
      ensures roomId in registry.rooms ==> out == [StateReply(registry.rooms[roomId].players, socketId)]
    {
      if roomId !in registry.rooms {
        return [];
      }
      out := [StateReply(registry.rooms[roomId].players, socketId)];
    }

    /** The loop of `AttemptMatch` over the queue `q0`: pairs are taken
        from the front until fewer than two are left. */
    method PairUp(q0: seq<string>, live: set<string>, roomIds: seq<string>, now: int)
      returns (rest: seq<string>, out: seq<Emit>, ghost made: seq<Room>)
      requires registry.Valid() && EnoughIds(q0, live, roomIds)
      modifies registry
      ensures registry.Valid() && registry.nextTimer == old(registry.nextTimer)
      ensures var m := Match(q0, live);
        && rest == m.rest
        && out == FoundAll(m.pairs, roomIds, |m.pairs|)
        && Opened(registry.rooms, old(registry.rooms), roomIds, m.pairs, now)
      ensures |made| == |Match(q0, live).pairs| && Holds(registry.rooms, roomIds, made)
      ensures NewObjects(made, old(registry.rooms))
    {
      var q := q0;
      ghost var M := Match(q0, live);
      ghost var base := registry.rooms;
      ghost var done: seq<Pair> := [];
      made := [];
      var n := 0;
      out := [];
      while |q| >= 2
        invariant registry.Valid() && n == |done| <= |roomIds|
        invariant registry.nextTimer == old(registry.nextTimer)
        invariant M == Then(done, Match(q, live))
        invariant out == FoundAll(M.pairs, roomIds, n)
        invariant Opened(registry.rooms, base, roomIds, done, now)
        invariant |made| == n && Holds(registry.rooms, roomIds, made)
        invariant NewObjects(made, base)
        decreases |q|
      {
        q, done, n, out, made := TakeTwo(M, base, q, live, roomIds, now, done, n, out, made);
      }
      assert Match(q, live).pairs == [] && done + [] == done;
      rest := q;
    }

    /** One turn of the matching loop: the two oldest are taken off; a
        pair with a closed connection puts its open one back in front, and
        a pair of open connections gets a room under the next id. */
    method TakeTwo(ghost M: Matching, ghost base: map<string, Room>, q: seq<string>, live: set<string>,
                   roomIds: seq<string>, now: int, ghost done: seq<Pair>, n: nat, out: seq<Emit>, ghost made: seq<Room>)
      returns (q': seq<string>, ghost done': seq<Pair>, n': nat, out': seq<Emit>, ghost made': seq<Room>)
      requires 2 <= |q| && NoDup(roomIds) && |M.pairs| <= |roomIds|
      requires registry.Valid() && n == |done|
      requires M == Then(done, Match(q, live))
      requires out == FoundAll(M.pairs, roomIds, n)
      requires Opened(registry.rooms, base, roomIds, done, now)
      requires |made| == n && Holds(registry.rooms, roomIds, made) && NewObjects(made, base)
      modifies registry
      ensures |q'| < |q| && registry.Valid() && n' == |done'| && n <= n' <= n + 1
      ensures |made'| == n' && Holds(registry.rooms, roomIds, made')
      ensures made'[..n] == made && (n' == n + 1 ==> fresh(made'[n])) && NewObjects(made', base)
      ensures registry.nextTimer == old(registry.nextTimer)
      ensures M == Then(done', Match(q', live))
      ensures out' == FoundAll(M.pairs, roomIds, n')
      ensures Opened(registry.rooms, base, roomIds, done', now)
    {
      var a, b := q[0], q[1];
      if a !in live || b !in live {
        return Requeued(q, live), done, n, out, made;
      }
      PairStep(q, live);
      q' := q[2..];
      var p := Pair(a, b);
      ThenPair(done, p, Match(q', live));
      var room := Open(base, roomIds, n, done, p, now);
      out' := out + Found(room.id, p);
      done', n', made' := done + [p], n + 1, made + [room];
      HoldsExtend(old(registry.rooms), roomIds, made, room);
      NewObjectsExtend(made, base, room);
    }

    /** One room of the matching loop: the room for pair `p` is created
        under the next unused id, and what is known of the rooms made
        before it is kept. */
    method Open(ghost base: map<string, Room>, roomIds: seq<string>, n: nat, ghost done: seq<Pair>, p: Pair, now: int)
      returns (room: Room)
      requires registry.Valid() && NoDup(roomIds) && n == |done| < |roomIds|
      requires Opened(registry.rooms, base, roomIds, done, now)
      modifies registry
      ensures registry.Valid() && room.id == roomIds[n] && fresh(room)
      ensures registry.rooms == old(registry.rooms)[roomIds[n] := room]
      ensures registry.nextTimer == old(registry.nextTimer)
      ensures Opened(registry.rooms, base, roomIds, done + [p], now)
    {
      ghost var rooms := registry.rooms;
      room := registry.CreateRoom(roomIds[n], p.a, p.b, now);
      assert Opened(rooms, base, roomIds, done, now);
      OpenedExtend(rooms, base, roomIds, done, p, room, now);
    }
  }

  /** The room state sent to `socketId` on request. For a player of the
      room it is the very `roomState` the periodic snapshot sends that
      player; anyone else gets the public stats and no enemies. */
  function StateReply(ps: seq<Player>, socketId: string): (e: Emit)
    requires DistinctIds(ps)
    ensures e.to == ToPlayer(socketId) && e.msg.RoomState? && e.msg.players == SerializePlayers(ps)
    ensures forall roomId, k :: 0 <= k < |ps| && ps[k].id == socketId ==> e == SnapshotTo(roomId, ps, k, false)
    ensures FindPlayer(ps, socketId).None? ==> e.msg.enemies == []
  {
    Emit(ToPlayer(socketId), RoomState(SerializeEnemies(ps, socketId), SerializePlayers(ps)))
  }

  /** Registering one more pair's room under the next id extends what a
      matching run has made. */
  lemma OpenedExtend(rooms: map<string, Room>, base: map<string, Room>, roomIds: seq<string>, done: seq<Pair>, p: Pair, room: Room, now: int)
    requires NoDup(roomIds) && |done| < |roomIds|
    requires Opened(rooms, base, roomIds, done, now) && NewRoom(room, p, now)
    ensures Opened(rooms[roomIds[|done|] := room], base, roomIds, done + [p], now)
  {
    TakenFresh(roomIds, |done|);
    AllMadeExtend(rooms, roomIds, done, p, room, now);
    KeysAfterExtend(rooms, base, roomIds, |done|, room);
  }

  lemma AllMadeExtend(rooms: map<string, Room>, roomIds: seq<string>, done: seq<Pair>, p: Pair, room: Room, now: int)
    requires NoDup(roomIds) && |done| < |roomIds|
    requires AllMade(rooms, roomIds, done, now) && NewRoom(room, p, now)
    ensures AllMade(rooms[roomIds[|done|] := room], roomIds, done + [p], now)
  {
    var n := |done|;
    var rooms' := rooms[roomIds[n] := room];
    forall i | 0 <= i < n
      ensures Made(rooms', roomIds[i], done[i], now)
    {
      assert roomIds[i] != roomIds[n];
      assert Made(rooms, roomIds[i], done[i], now);
    }
    assert Made(rooms', roomIds[n], p, now);
    ghost var done' := done + [p];
    forall i | 0 <= i < n + 1
      ensures Made(rooms', roomIds[i], done'[i], now)
    {
      if i < n {
        assert done'[i] == done[i];
      }
    }
  }

  lemma KeysAfterExtend(rooms: map<string, Room>, base: map<string, Room>, roomIds: seq<string>, n: nat, room: Room)
    requires n < |roomIds| && roomIds[n] !in Taken(roomIds, n)
    requires KeysAfter(rooms, base, roomIds, n)
    ensures KeysAfter(rooms[roomIds[n] := room], base, roomIds, n + 1)
  {
    assert Taken(roomIds, n + 1) == Taken(roomIds, n) + {roomIds[n]};
  }

  /** The i-th room a matching run made is the object under the i-th id. */
  ghost predicate Holds(rooms: map<string, Room>, roomIds: seq<string>, made: seq<Room>) {
    |made| <= |roomIds| && forall i :: 0 <= i < |made| ==> roomIds[i] in rooms && rooms[roomIds[i]] == made[i]
  }

  /** The rooms a matching run made are different objects, and none of
      them is a room registered before the run. */
  ghost predicate NewObjects(made: seq<Room>, base: map<string, Room>) {
    && (forall j :: 0 <= j < |made| ==> made[j] !in base.Values)
    && (forall i, j :: 0 <= i < j < |made| ==> made[i] != made[j])
  }

  /** A room that is neither registered before the run nor made by it
      extends what the run made with a new object. */
  lemma NewObjectsExtend(made: seq<Room>, base: map<string, Room>, room: Room)
    requires NewObjects(made, base) && room !in base.Values && room !in made
    ensures NewObjects(made + [room], base)
  {
  }

  /** Setting the next id to the next room made extends `Holds`. */
  lemma HoldsExtend(rooms: map<string, Room>, roomIds: seq<string>, made: seq<Room>, room: Room)
    requires NoDup(roomIds) && |made| < |roomIds| && Holds(rooms, roomIds, made)
    ensures Holds(rooms[roomIds[|made|] := room], roomIds, made + [room])
  {
  }

  /** The room for pair `p` is registered under `roomId`. */
  ghost predicate Made(rooms: map<string, Room>, roomId: string, p: Pair, now: int)
    reads if roomId in rooms then {rooms[roomId]} else {}
  {
    roomId in rooms && NewRoom(rooms[roomId], p, now)
  }

  /** After `done` pairs of a matching run that started from the rooms
      `base`: the room of pair i sits under the i-th id, the keys are the
      old ones and the ids used, and every other room is as it was. */
  ghost predicate Opened(rooms: map<string, Room>, base: map<string, Room>, roomIds: seq<string>, done: seq<Pair>, now: int)
    reads rooms.Values
  {
    AllMade(rooms, roomIds, done, now) && KeysAfter(rooms, base, roomIds, |done|)
  }

  /** The room of pair i sits under the i-th id. */
  ghost predicate AllMade(rooms: map<string, Room>, roomIds: seq<string>, done: seq<Pair>, now: int)
    reads rooms.Values
  {
    && |done| <= |roomIds|
    && forall i {:trigger Made(rooms, roomIds[i], done[i], now)} :: 0 <= i < |done| ==> Made(rooms, roomIds[i], done[i], now)
  }

  /** The keys are the old ones and the first `n` ids; the other rooms are
      as they were. */
  ghost predicate KeysAfter(rooms: map<string, Room>, base: map<string, Room>, roomIds: seq<string>, n: nat)
    requires n <= |roomIds|
  {
    && (forall k :: k in rooms <==> k in base || k in Taken(roomIds, n))
    && (forall k :: k in base && k !in Taken(roomIds, n) ==> rooms[k] == base[k])
  }

  /** A room as matchmaking creates it for a pair at time `now`: the
      pair's two players new, nothing started, both clocks at `now`, no
      snapshot sent, no hit recorded and no grace timer armed. */
  ghost predicate NewRoom(room: Room, p: Pair, now: int)
    reads room
  {
    && room.players == MapSet([NewPlayer(p.a)], NewPlayer(p.b))
    && room.createdAt == now && room.lastTick == now
    && !room.started && !room.ticking
    && room.lastSnapshot.None? && room.lastHitTimes == map[]
    && room.disconnectTimeout.None? && room.graceTimers == map[]
  }
}
