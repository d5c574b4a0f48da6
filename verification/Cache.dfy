/** cache/cache.go and cache/hit.go: the cache object. */
module ResponseCache {
  import opened Dns
  import opened Options
  import opened CacheState

  class Cache {
    const config: Config
    var m: map<string, Elem<MsgPtr>>
    ghost var events: seq<Event>  // the calls made so far

    ghost function Messages(): set<MsgPtr>
      reads this`m
    {
      set k | k in m :: m[k].msg
    }

    /** The stored entries with the messages they point to. */
    ghost function View(): View
      reads this`m, Messages()
    {
      map k | k in m ::
        Elem(m[k].expiration, m[k].msg.msg, m[k].staleExpiration, m[k].hits, m[k].staleHits, m[k].ttlSeconds)
    }

    /** The stored entries are those that the calls made so far leave behind. */
    ghost predicate Valid()
      reads this`m, this`events, Messages()
    {
      Explains(config, events, View())
    }

    constructor (capacity: int, ttl: int, staleTtl: int, ttlFromResp: bool, ttlMax: int)
      ensures Valid() && events == [] && m == map[]
      ensures config == NewConfig(capacity, ttl, staleTtl, ttlFromResp, ttlMax)
    {
      m := map[];
      config := Config(capacity, Duration(ttl), Duration(staleTtl), ttlFromResp,
                       ttl % 0x1_0000_0000, ttlMax % 0x1_0000_0000);
      events := [];
    }

    /** Logs a call whose effect on the stored entries has been shown. */
    ghost method Record(e: Event, before: View)
      requires Explains(config, events, before)
      requires Feasible(config, before, e) && View() == Next(config, before, e)
      modifies this`events
      ensures Valid() && events == old(events) + [e]
    {
      ExplainsNext(config, events, before, e);
      events := events + [e];
    }

    // Updates of the Go map, and what each does to the stored entries.

    method Drop(key: string)
      modifies this`m
      ensures m == old(m) - {key} && View() == old(View()) - {key}
      ensures Messages() <= old(Messages())
    {
      m := m - {key};
    }

    method Put(key: string, exp: Time, copy: MsgPtr, staleExp: Time, ttlSeconds: uint32)
      modifies this`m
      ensures m == old(m)[key := Elem(exp, copy, staleExp, 0, 0, ttlSeconds)]
      ensures View() == old(View())[key := Elem(exp, copy.msg, staleExp, 0, 0, ttlSeconds)]
    {
      m := m[key := Elem(exp, copy, staleExp, 0, 0, ttlSeconds)];
    }

    method CountHit(key: string, valid: bool)
      requires key in m
      modifies this`m
      ensures m.Keys == old(m.Keys) && Messages() == old(Messages())
      ensures View() == old(View())[key := Touched(old(View())[key], valid)]
    {
      if valid {
        m := m[key := m[key].(hits := m[key].hits + 1)];
      } else {
        m := m[key := m[key].(staleHits := m[key].staleHits + 1)];
      }
    }

    method Remove(key: string)
      requires Valid()
      modifies this
      ensures Valid() && events == old(events) + [Delete(key)]
      ensures View() == old(View()) - {key}
    {
      ghost var before := View();
      Drop(key);
      Record(Delete(key), before);
    }

    /** One walk over the map, which Go does in an arbitrary order. */
    method EvictRandomInternal(onlyStale: bool, now: Time) returns (ghost victim: string)
      requires config.capacity > 0
      modifies this`m
      ensures |old(m)| != config.capacity ==> m == old(m)
      ensures |old(m)| == config.capacity ==>
                victim in old(m) &&
                m == if onlyStale && now <= old(m)[victim].staleExpiration then old(m) else old(m) - {victim}
    {
      victim := "";
      if |m| < config.capacity {
        return;
      }
      ghost var before := m;
      var i := config.capacity - |m|;
      var todo := m.Keys;
      while todo != {}
        invariant todo <= before.Keys && i <= 0
        invariant i == 0 ==> m == before && todo == before.Keys && |before| == config.capacity
        invariant i < 0 && |before| != config.capacity ==> m == before
        invariant i < 0 && |before| == config.capacity ==>
                    victim in before && todo <= before.Keys - {victim} &&
                    m == if onlyStale && now <= before[victim].staleExpiration then before else before - {victim}
        decreases todo
      {
        var k :| k in todo;
        if i == 0 {
          victim := k;
          if onlyStale {
            if now > m[k].staleExpiration {
              m := m - {k};
            }
          } else {
            m := m - {k};
          }
        }
        i := i - 1;
        todo := todo - {k};
      }
    }

    /** Two walks: one that drops only an element past its stale deadline, one that drops any.
        Together they drop exactly one element from a full map, and none from any other. */
    method EvictRandom(now: Time) returns (ghost victim: string)
      requires config.capacity > 0
      modifies this`m
      ensures View() == Evicted(config, old(View()), victim)
      ensures |old(m)| == config.capacity ==> victim in old(m)
      ensures Messages() <= old(Messages())
    {
      victim := EvictTwice(now);
      assert |old(View())| == |old(m)| by {
        assert old(View()).Keys == old(m).Keys;
      }
      Shrunk(if |old(m)| == config.capacity then {victim} else {});
    }

    method EvictTwice(now: Time) returns (ghost victim: string)
      requires config.capacity > 0
      modifies this`m
      ensures |old(m)| != config.capacity ==> m == old(m)
      ensures |old(m)| == config.capacity ==> victim in old(m) && m == old(m) - {victim}
    {
      victim := EvictRandomInternal(true, now);
      ghost var left := |m|;
      ghost var second := EvictRandomInternal(false, now);
      if left == config.capacity {
        victim := second;
      }
    }

    twostate lemma Shrunk(gone: set<string>)
      requires m == old(m) - gone
      requires forall k | k in m :: m[k].msg.msg == old(m[k].msg.msg)
      ensures View() == old(View()) - gone && Messages() <= old(Messages())
    {
    }

    method GetLowestTtl(r: Msg, min: uint32, max: uint32) returns (value: uint32)
      ensures value == LowestTtl(r, min, max)
    {
      var ttls: seq<uint32> := [];
      var i := 0;
      while i < |r.answer|
        invariant 0 <= i <= |r.answer| && |ttls| == i
        invariant forall j | 0 <= j < i :: ttls[j] == r.answer[j].ttl
      {
        ttls := ttls + [r.answer[i].ttl];
        i := i + 1;
      }
      if |ttls| == 0 {
        ttls := ttls + [0];
      }
      value := ttls[0];
      i := 1;
      while i < |ttls|
        invariant 1 <= i <= |ttls|
        invariant forall j | 0 <= j < i :: value <= ttls[j]
        invariant exists j | 0 <= j < i :: value == ttls[j]
      {
        if ttls[i] < value {
          value := ttls[i];
        }
        i := i + 1;
      }
      assert r.answer != [] ==> value == MinTtl(r.answer);
      if value < min {
        value := min;
      } else if value > max {
        value := max;
      }
    }

    method StoreMessage(key: string, msg: MsgPtr, at: InsertClock)
      requires config.capacity > 0
      modifies this`m
      ensures View() == Stored(config, old(View()), key, msg.msg, at)
      ensures fresh(Messages() - old(Messages()))
    {
      var renew := false;
      var ok := key in m;
      if ok {
        renew := at.renewExp > m[key].expiration && at.renewStale < m[key].staleExpiration;
      }
      if !ok || renew {
        var exp := at.expBase + config.ttl;
        var ttlSeconds: uint32 := 0;
        if config.ttlFromResp {
          var lowest := GetLowestTtl(msg.msg, config.ttlMinSeconds, config.ttlMaxSeconds);
          exp := at.expBase + lowest * SECOND;
          ttlSeconds := lowest;
        }
        var copy := msg.Copy();
        Put(key, exp, copy, at.staleBase + config.staleTtl, ttlSeconds);
      }
    }

    /** Stores and evicts, under the write lock. */
    method Place(key: string, msg: MsgPtr, at: InsertClock) returns (ghost victim: string)
      modifies this`m
      ensures View() == Next(config, old(View()), Insert(key, msg.msg, at, victim))
      ensures Feasible(config, old(View()), Insert(key, msg.msg, at, victim))
      ensures fresh(Messages() - old(Messages()))
    {
      if config.capacity <= 0 {
        victim := "";
        return;
      }
      StoreMessage(key, msg, at);
      assert View().Keys == m.Keys;
      victim := EvictRandom(at.evict);
    }

    method InsertMessage(key: string, msg: MsgPtr, at: InsertClock) returns (ghost victim: string)
      requires Valid()
      modifies this
      ensures Valid() && events == old(events) + [Insert(key, msg.msg, at, victim)]
      ensures View() == Next(config, old(View()), Insert(key, msg.msg, at, victim))
      ensures fresh(Messages() - old(Messages()))
    {
      ghost var before := View();
      victim := Place(key, msg, at);
      Record(Insert(key, msg.msg, at, victim), before);
    }

    method Search(key: string) returns (copy: MsgPtr?, expiration: Time, staleExpiration: Time, found: bool)
      ensures found <==> config.capacity > 0 && key in m
      ensures found ==> copy != null && fresh(copy) && copy.msg == m[key].msg.msg
                        && expiration == m[key].expiration && staleExpiration == m[key].staleExpiration
    {
      if config.capacity <= 0 {
        return null, 0, 0, false;
      }
      if key in m {
        var c := m[key].msg.Copy();
        return c, m[key].expiration, m[key].staleExpiration, true;
      }
      return null, 0, 0, false;
    }

    /** Counts a hit and drops an element that is past its stale deadline. */
    method Touch(key: string, valid: bool, gone: bool)
      requires key in m
      modifies this`m
      ensures View() == if gone then old(View()) - {key}
                        else old(View())[key := Touched(old(View())[key], valid)]
      ensures Messages() <= old(Messages())
    {
      CountHit(key, valid);
      if gone {
        Drop(key);
      }
    }

    /** Even if something ended up with the TC bit in the cache, it goes out without. */
    method Readdress(m1: MsgPtr, id: uint16)
      modifies m1
      ensures m1.msg == Served(old(m1.msg), id)
    {
      m1.msg := m1.msg.(hdr := m1.msg.hdr.(id := id));
      m1.msg := m1.msg.(compress := true);
      m1.msg := m1.msg.WithTruncated(false);
    }

    /** The message handed out is a fresh copy: no later change to it reaches the cache. */
    method Hit(key: string, id: uint16, keepStale: bool, returnStale: bool, at: HitClock) returns (r: MsgPtr?)
      requires Valid()
      modifies this
      ensures Valid() && events == old(events) + [Lookup(key, id, keepStale, returnStale, at)]
      ensures View() == Next(config, old(View()), Lookup(key, id, keepStale, returnStale, at))
      ensures (if r == null then None else Some(r.msg))
           == Result(config, old(View()), Lookup(key, id, keepStale, returnStale, at))
      ensures r != null ==> fresh(r) && r !in Messages()
      ensures Messages() <= old(Messages())
    {
      ghost var e := Lookup(key, id, keepStale, returnStale, at);
      ghost var before := View();
      r := null;
      var m1, exp, staleExp, hit := Search(key);
      var valid := at.valid < exp;
      if hit {
        if valid || returnStale {
          Readdress(m1, id);
          Touch(key, valid, at.gone > staleExp);
          r := m1;
        } else if !keepStale {
          Drop(key);
        }
      }
      Record(e, before);
    }
  }
}
