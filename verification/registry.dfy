/**
 * The process-wide consumer registry: consumer names mapped to consumers,
 * written once per name during start-up.
 */
module Registry {
  import opened Wrappers

  /**
   * A registered consumer's capabilities other than its unit of work: its
   * name, the event it subscribes to and its delivery delay in seconds.  The
   * outcome of its unit of work is an input of the delivery step.
   */
  datatype Consumer = Consumer(name: string, event: string, delay: int)

  type Registry = map<string, Consumer>

  /** The invariant registration keeps: every entry is filed under its own name. */
  ghost predicate WellKeyed(reg: Registry) {
    forall k :: k in reg ==> reg[k].name == k
  }

  /** The panic a second registration of a name raises. */
  datatype DuplicateName = DuplicateName(name: string) {
    function Text(): string {
      "consumer register called twice for " + name
    }
  }

  /**
   * Adds `c` under its name.  A name that is already taken makes the source
   * panic; here that is a `Failure` carrying the panic text, and the registry
   * the caller holds is left as it was.
   */
  function RegisterConsumer(reg: Registry, c: Consumer): (r: Result<Registry, DuplicateName>)
    ensures c.name in reg <==> r.Failure?
    ensures r.Failure? ==> r.error == DuplicateName(c.name)
    ensures r.Success? ==> r.value.Keys == reg.Keys + {c.name}
    ensures r.Success? ==> r.value[c.name] == c
    ensures r.Success? ==> forall k :: k in reg ==> r.value[k] == reg[k]
  {
    if c.name in reg then Failure(DuplicateName(c.name)) else Success(reg[c.name := c])
  }

  /** A successful registration grows the registry by exactly one entry. */
  lemma RegisterGrowsByOne(reg: Registry, c: Consumer)
    requires RegisterConsumer(reg, c).Success?
    ensures |RegisterConsumer(reg, c).value| == |reg| + 1
  {
    assert RegisterConsumer(reg, c).value.Keys == reg.Keys + {c.name};
  }

  /** Lookup at dispatch time. */
  function Lookup(reg: Registry, name: string): (r: Option<Consumer>)
    ensures r.Some? <==> name in reg
    ensures r.Some? ==> r.value == reg[name]
  {
    if name in reg then Some(reg[name]) else None
  }

  lemma RegisterPreservesWellKeyed(reg: Registry, c: Consumer)
    requires WellKeyed(reg)
    ensures RegisterConsumer(reg, c).Success? ==> WellKeyed(RegisterConsumer(reg, c).value)
  {
  }

  /** After a successful registration, looking the name up yields the registered consumer. */
  lemma LookupAfterRegister(reg: Registry, c: Consumer, name: string)
    requires RegisterConsumer(reg, c).Success?
    ensures Lookup(RegisterConsumer(reg, c).value, name)
            == if name == c.name then Some(c) else Lookup(reg, name)
  {
  }

  /** The names of the consumers `cs`. */
  function NameSet(cs: seq<Consumer>): set<string> {
    if |cs| == 0 then {} else NameSet(cs[..|cs| - 1]) + {cs[|cs| - 1].name}
  }

  /** No name in `cs` repeats an earlier one. */
  predicate UniqueNames(cs: seq<Consumer>) {
    |cs| == 0 || (UniqueNames(cs[..|cs| - 1]) && cs[|cs| - 1].name !in NameSet(cs[..|cs| - 1]))
  }

  lemma {:induction false} NameSetMembers(cs: seq<Consumer>)
    ensures forall i :: 0 <= i < |cs| ==> cs[i].name in NameSet(cs)
    ensures forall n :: n in NameSet(cs) ==> exists i :: 0 <= i < |cs| && cs[i].name == n
  {
    if |cs| > 0 {
      var pre := cs[..|cs| - 1];
      NameSetMembers(pre);
      forall n | n in NameSet(cs)
        ensures exists i :: 0 <= i < |cs| && cs[i].name == n
      {
        if n in NameSet(pre) {
          var i :| 0 <= i < |pre| && pre[i].name == n;
          assert cs[i].name == n;
        } else {
          assert cs[|cs| - 1].name == n;
        }
      }
      forall i | 0 <= i < |pre|
        ensures cs[i].name in NameSet(cs)
      {
        assert pre[i] == cs[i];
      }
    }
  }

  /** `UniqueNames` means the names are pairwise distinct. */
  lemma {:induction false} UniqueNamesPairwise(cs: seq<Consumer>)
    ensures UniqueNames(cs) <==> forall i, j :: 0 <= i < j < |cs| ==> cs[i].name != cs[j].name
  {
    if |cs| > 0 {
      var pre, last := cs[..|cs| - 1], cs[|cs| - 1];
      UniqueNamesPairwise(pre);
      NameSetMembers(pre);
      if UniqueNames(cs) {
        forall i, j | 0 <= i < j < |cs|
          ensures cs[i].name != cs[j].name
        {
          if j < |pre| {
            assert pre[i] == cs[i] && pre[j] == cs[j];
          } else {
            assert pre[i].name in NameSet(pre);
          }
        }
      }
    }
  }

  /**
   * Start-up: the owning services register their consumers one after the
   * other, and the first duplicate aborts the process.
   */
  function RegisterAll(reg: Registry, cs: seq<Consumer>): (r: Result<Registry, DuplicateName>)
    decreases |cs|
  {
    if |cs| == 0 then Success(reg)
    else
      match RegisterAll(reg, cs[..|cs| - 1])
      case Failure(e) => Failure(e)
      case Success(prefix) => RegisterConsumer(prefix, cs[|cs| - 1])
  }

  /**
   * Start-up succeeds exactly when no name repeats and none is registered
   * yet; the registry then holds the old names plus exactly the new ones.
   */
  lemma {:induction false} RegisterAllSucceedsIff(reg: Registry, cs: seq<Consumer>)
    ensures RegisterAll(reg, cs).Success? <==> UniqueNames(cs) && NameSet(cs) !! reg.Keys
    ensures RegisterAll(reg, cs).Success? ==> RegisterAll(reg, cs).value.Keys == reg.Keys + NameSet(cs)
    decreases |cs|
  {
    if |cs| > 0 {
      var pre, last := cs[..|cs| - 1], cs[|cs| - 1];
      RegisterAllSucceedsIff(reg, pre);
      var names := NameSet(pre);
      assert NameSet(cs) == names + {last.name};
      assert UniqueNames(cs) == (UniqueNames(pre) && last.name !in names);
      if RegisterAll(reg, pre).Success? {
        var mid := RegisterAll(reg, pre).value;
        assert mid.Keys == reg.Keys + names;
        assert RegisterAll(reg, cs) == RegisterConsumer(mid, last);
        assert NameSet(cs) !! reg.Keys <==> names !! reg.Keys && last.name !in reg;
      } else {
        assert RegisterAll(reg, cs).Failure?;
      }
    }
  }

  /** A successful start-up keeps every entry that was already registered. */
  lemma {:induction false} RegisterAllKeepsOld(reg: Registry, cs: seq<Consumer>)
    requires RegisterAll(reg, cs).Success?
    ensures forall k :: k in reg ==> k in RegisterAll(reg, cs).value && RegisterAll(reg, cs).value[k] == reg[k]
    decreases |cs|
  {
    if |cs| > 0 {
      RegisterAllKeepsOld(reg, cs[..|cs| - 1]);
    }
  }

  /** After a successful start-up every consumer is found under its own name. */
  lemma {:induction false} RegisterAllFinds(reg: Registry, cs: seq<Consumer>)
    requires RegisterAll(reg, cs).Success?
    ensures forall c :: c in cs ==> c.name in RegisterAll(reg, cs).value && RegisterAll(reg, cs).value[c.name] == c
    decreases |cs|
  {
    if |cs| > 0 {
      var pre := cs[..|cs| - 1];
      var last := cs[|cs| - 1];
      RegisterAllFinds(reg, pre);
      var mid := RegisterAll(reg, pre).value;
      var fin := RegisterAll(reg, cs).value;
      assert last.name !in mid && fin == mid[last.name := last];
      forall c | c in cs
        ensures c.name in fin && fin[c.name] == c
      {
        var i :| 0 <= i < |cs| && cs[i] == c;
        if i < |pre| {
          assert c in pre;
        }
      }
    }
  }
}
