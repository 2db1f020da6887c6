/** The registry as the mutable object the generated runtime holds. */
module Registry {
  import opened Wrappers
  import opened RegistryModel

  /** The host: which owners have expired, which JavaScript objects were collected, and what will
      expire or be collected beside the call under way. */
  class Environment {
    var expired: set<nat>
    var collected: set<nat>
    var nextJs: nat
    var during: seq<Event>

    constructor ()
      ensures expired == {} && collected == {} && nextJs == 0 && during == []
    {
      expired, collected, nextJs, during := {}, {}, 0, [];
    }

    /** Another thread or the collector runs before the next step of a call. */
    method Pass()
      modifies this`expired, this`collected, this`during
      ensures during == Later(old(during))
      ensures expired == if old(during) == [] then old(expired) else old(expired) + old(during)[0].expired
      ensures collected == if old(during) == [] then old(collected) else old(collected) + old(during)[0].collected
    {
      if during != [] {
        expired, collected, during := expired + during[0].expired, collected + during[0].collected, during[1..];
      }
    }

    method CreateFromHostObject() returns (js: nat)
      modifies this`nextJs
      ensures js == old(nextJs) && nextJs == old(nextJs) + 1
    {
      js := nextJs;
      nextJs := nextJs + 1;
    }
  }

  class CppObjectRegistry {
    const environment: Environment
    var runtime: Option<nat>
    var entries: seq<Entry>

    constructor (environment: Environment)
      ensures this.environment == environment && runtime == None && entries == []
    {
      this.environment := environment;
      runtime, entries := None, [];
    }

    function State(): World
      reads this, environment
    {
      World(entries, runtime, environment.expired, environment.collected, environment.nextJs)
    }

    method AssertRuntime(current: nat) returns (accepted: bool)
      modifies this`runtime
      ensures accepted == RuntimeAccepted(old(State()), current)
      ensures runtime == if accepted then Some(current) else old(runtime)
    {
      if runtime == None {
        runtime := Some(current);
        return true;
      }
      return runtime == Some(current);
    }

    /** `wrap`: one pass that erases expired entries until the instance is met. */
    method WrapInstance(current: nat, typeId: string, instance: Option<Instance>, factoryOk: bool)
      returns (reply: Reply)
      modifies this, environment
      ensures (State(), reply) == Wrap(old(State()), current, typeId, instance, factoryOk, old(environment.during))
    {
      var accepted := AssertRuntime(current);
      if !accepted {
        return WrongRuntime;
      }
      if instance.None? {
        return NullInstance;
      }
      ghost var scanned := Scan(old(State()).(runtime := Some(current)), old(entries), 0, typeId, instance.value,
          old(environment.during));
      var cursor := 0;
      while cursor < |entries|
        invariant cursor <= |entries| && runtime == Some(current)
        invariant scanned
          == Scan(State().(entries := old(entries)), entries, cursor, typeId, instance.value, environment.during)
        modifies this`entries, environment`expired, environment`collected, environment`during
        decreases |entries| - cursor
      {
        environment.Pass();
        var entry := entries[cursor];
        if entry.owner in environment.expired {
          entries := Without(entries, cursor);
        } else if !Matches(entry, typeId, instance.value) {
          if SameAddressAndType(entry, typeId, instance.value.address) {
            return ConflictingOwner;
          }
          cursor := cursor + 1;
        } else {
          if entry.js !in environment.collected {
            return Wrapped(entry.js);
          }
          entries := Without(entries, cursor);
          break;
        }
      }
      environment.Pass();
      if !factoryOk {
        return FactoryFailed;
      }
      var js := environment.CreateFromHostObject();
      entries := entries + [Entry(typeId, instance.value.owner, instance.value.address, js)];
      return Wrapped(js);
    }

    method PurgeEntries(current: nat) returns (reply: Reply)
      modifies this, environment
      ensures (State(), reply) == Purge(old(State()), current, old(environment.during))
    {
      var accepted := AssertRuntime(current);
      if !accepted {
        return WrongRuntime;
      }
      ghost var purged := PurgeFrom(old(State()).(runtime := Some(current)), old(entries), 0, old(environment.during));
      var cursor := 0;
      while cursor < |entries|
        invariant cursor <= |entries| && runtime == Some(current)
        invariant purged == PurgeFrom(State().(entries := old(entries)), entries, cursor, environment.during)
        modifies this`entries, environment`expired, environment`collected, environment`during
        decreases |entries| - cursor
      {
        environment.Pass();
        if entries[cursor].owner in environment.expired || entries[cursor].js in environment.collected {
          entries := Without(entries, cursor);
        } else {
          cursor := cursor + 1;
        }
      }
      return Purged;
    }
  }
}
