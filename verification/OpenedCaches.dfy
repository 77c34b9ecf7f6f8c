/** The package-level registry as an object: New, Close and the teardown timers change it in place. */
module OpenedCaches {
  import opened Basics
  import R = Registry

  class OpenedCaches {
    var entries: map<R.Options, nat>
    var caches: seq<R.CacheObject>
    var closes: seq<nat>
    var abandoned: set<nat>
    var handles: multiset<nat>
    var timers: multiset<nat>

    ghost function View(): R.State
      reads this
    {
      R.State(entries, caches, closes, abandoned, handles, timers)
    }

    ghost predicate Valid()
      reads this
    {
      R.Inv(View())
    }

    constructor ()
      ensures Valid() && View() == R.INITIAL
    {
      entries, caches, closes := map[], [], [];
      abandoned, handles, timers := {}, multiset{}, multiset{};
    }

    /** The part of New that opens a connection and registers it under the requested options. */
    method Open(requested: R.Options, env: R.Surroundings) returns (r: Result<nat, R.NewError>)
      modifies this
      ensures (View(), r) == R.Open(old(View()), requested, env)
    {
      var o := requested;
      var initialShadowGid := o.shadowGid;
      if o.shadowGid < 0 {
        if env.shadowGroup.None? {
          return Err(R.NoShadowGroup);
        }
        o := o.(shadowGid := env.shadowGroup.value);
      }
      if env.init.NotConnected? {
        return Err(R.InitFailed);
      }
      var db := |closes|;
      closes := closes + [0];
      if env.init.ConnectedThenFailed? {
        abandoned := abandoned + {db};
        return Err(R.InitFailed);
      }
      var shadowMode := env.init.shadowMode;
      if shadowMode == READ_WRITE && o.expiration != 0 && !env.purgeSucceeds {
        abandoned := abandoned + {db};
        return Err(R.PurgeFailed);
      }
      o := o.(shadowGid := initialShadowGid);
      var id := |caches|;
      caches := caches + [R.CacheObject(db, shadowMode, 1, o)];
      entries := entries[o := id];
      handles := handles + multiset{id};
      return Ok(id);
    }

    /** One more handle on a registered cache. */
    method Reuse(id: nat)
      requires id < |caches|
      modifies this
      ensures View() == R.Reuse(old(View()), id)
    {
      caches := caches[id := caches[id].(usedBy := caches[id].usedBy + 1)];
      handles := handles + multiset{id};
    }

    /** New: share the registered cache, or open one. */
    method New(requested: R.Options, env: R.Surroundings) returns (r: Result<nat, R.NewError>)
      requires Valid()
      modifies this
      ensures Valid() && (View(), r) == R.New(old(View()), requested, env)
      ensures handles == if r.Ok? then old(handles) + multiset{r.value} else old(handles)
      ensures r.Ok? ==> r.value < |caches|
    {
      R.NewInvariant(View(), requested, env);
      R.NewHandles(View(), requested, env);
      if requested in entries {
        r := Ok(entries[requested]);
        Reuse(entries[requested]);
      } else {
        r := Open(requested, env);
      }
    }

    /** Close: give one handle back; the last one starts a timer. */
    method Close(id: nat)
      requires Valid() && id in handles
      modifies this
      ensures Valid() && View() == R.Close(old(View()), id)
      ensures handles == old(handles) - multiset{id} && closes == old(closes)
    {
      R.CloseInvariant(View(), id);
      caches := caches[id := caches[id].(usedBy := caches[id].usedBy - 1)];
      handles := handles - multiset{id};
      if caches[id].usedBy != 0 {
        return;
      }
      timers := timers + multiset{id};
    }

    /** The goroutine started by Close, once its delay is over. */
    method TimerFire(id: nat)
      requires Valid() && id in timers
      modifies this
      ensures Valid() && View() == R.TimerFire(old(View()), id)
      ensures handles == old(handles)
    {
      R.TimerFireInvariant(View(), id);
      timers := timers - multiset{id};
      if caches[id].usedBy == 0 {
        var db, sig := caches[id].db, caches[id].sig;
        closes := closes[db := closes[db] + 1];
        entries := entries - {sig};
        caches := caches[id := caches[id].(usedBy := -1)];
      }
    }
  }
}
