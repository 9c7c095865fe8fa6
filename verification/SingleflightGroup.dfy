/**
 The Group object of pkg/singleflight/singleflight.go. Each lock-protected section, the end of fn and
 the return of a caller is one method, proved to take the step of the protocol in Singleflight.
 */
module SingleflightGroup {
  import opened Wrappers
  import S = Singleflight

  class Call {
    var val: S.Value
    var err: Option<string>
    var dups: nat
    var forgotten: bool

    constructor ()
      ensures val == S.Nil && err == None && dups == 0 && !forgotten
    {
      val, err, dups, forgotten := S.Nil, None, 0, false;
    }
  }

  class Group {
    var m: map<string, Call>
    ghost var model: S.Group
    ghost var calls: seq<Call>    // every call ever started
    ghost var repr: set<Call>

    ghost predicate Valid()
      reads this, repr
    {
      && |calls| == |model.calls|
      && (forall c :: 0 <= c < |calls| ==> calls[c] in repr && Shows(calls[c], model.calls[c]))
      && (forall c, d :: 0 <= c < d < |calls| ==> calls[c] != calls[d])
      && m.Keys == model.m.Keys
      && (forall k :: k in m ==> model.m[k] < |calls| && m[k] == calls[model.m[k]])
    }

    ghost predicate Shows(o: Call, c: S.Call)
      reads this, repr
    {
      o in repr && o.val == c.val && o.err == c.err && o.dups == c.dups && o.forgotten == c.forgotten
    }

    constructor ()
      ensures Valid() && model == S.EMPTY && fresh(repr)
    {
      m, model, calls, repr := map[], S.EMPTY, [], {};
    }

    // The part of Do and DoChan under the lock: join the call of the key, or start one.
    method Enter(key: string, ghost x: nat) returns (c: Call, leads: bool)
      requires Valid() && S.Enabled(model, S.Do(x, key))
      modifies this, repr`dups
      ensures Valid() && fresh(repr - old(repr))
      ensures model == S.Next(old(model), S.Do(x, key))
      ensures leads <==> key !in old(model).m
      ensures model.callers[x].c < |calls| && c == calls[model.callers[x].c]
    {
      if key in m {
        Join(m[key]);
        c, leads := m[key], false;
        model := S.Next(model, S.Do(x, key));
        return;
      }
      c := new Call();
      leads := true;
      m := m[key := c];
      calls, repr := calls + [c], repr + {c};
      model := S.Next(model, S.Do(x, key));
    }

    method Join(c: Call)
      modifies c`dups
      ensures c.dups == old(c.dups) + 1
    {
      c.dups := c.dups + 1;
    }

    // fn ended: its result is stored; as written, a panic becomes a value and clears the error.
    method Finish(c: Call, outcome: S.Outcome, ghost i: nat)
      requires Valid() && S.Enabled(model, S.Finish(i, outcome)) && i < |calls| && c == calls[i]
      modifies this`model, c`val, c`err
      ensures Valid() && model == S.Next(old(model), S.Finish(i, outcome))
    {
      match outcome
      case Returns(val, err) =>
        c.val, c.err := val, err;
        model := S.Next(model, S.Finish(i, outcome));
      case Panics(msg) =>
        c.err := None;
        c.val := S.Text(msg);
        model := S.Next(model, S.Finish(i, outcome));
    }

    // The entry goes, unless the call was forgotten or another call has taken its place.
    method Cleanup(c: Call, key: string, ghost i: nat)
      requires Valid() && S.Enabled(model, S.Cleanup(i)) && i < |calls| && c == calls[i] && model.calls[i].key == key
      modifies this`m, this`model
      ensures Valid() && model == S.Next(old(model), S.Cleanup(i))
    {
      if !c.forgotten {
        if key in m && m[key] == c { m := m - {key}; }
      }
      model := S.Next(model, S.Cleanup(i));
    }

    method Forget(key: string)
      requires Valid()
      modifies this`m, this`model, repr`forgotten
      ensures Valid() && model == S.Next(old(model), S.Forget(key))
    {
      if key in m {
        var c := m[key];
        Mark(c);
        m := m - {key};
      }
      model := S.Next(model, S.Forget(key));
    }

    method Mark(c: Call)
      modifies c`forgotten
      ensures c.forgotten
    {
      c.forgotten := true;
    }

    // A caller whose call is done takes the result with it; whoever joined is told it was shared.
    method Return(c: Call, leads: bool, ghost x: nat) returns (val: S.Value, err: Option<string>, shared: bool)
      requires Valid() && S.Enabled(model, S.Return(x))
      requires model.callers[x].c < |calls| && c == calls[model.callers[x].c] && (leads <==> model.callers[x].Leading?)
      modifies this`model
      ensures Valid() && model == S.Next(old(model), S.Return(x))
      ensures x in model.callers && model.callers[x] == S.Got(old(model).callers[x].c, val, err, shared)
    {
      model := S.Next(model, S.Return(x));
      return c.val, c.err, !leads;
    }
  }
}
