/**
 * `World` (World.ts): the subsystems are built when the resources are
 * ready, and `update` does nothing before that. The arrow function World
 * registers for `ready` is the callback id `listener`; its body is the
 * method `OnReady`, which runs whenever a `ready` trigger invokes that id.
 */
module Composer {
  import opened Js
  import opened Names
  import opened Registry
  import opened Emitter
  import opened Loading

  /** The environment map and lights (Environment.ts is not part of this model). */
  class Environment {
    constructor () { }
  }

  /** The textured ground (Floor.ts is not part of this model). */
  class Floor {
    constructor () { }
  }

  /** The animated model; `updates` counts the calls of its `update`. */
  class Fox {
    var updates: nat

    constructor ()
      ensures updates == 0
    {
      updates := 0;
    }

    /** `fox.update()`, which advances the animation mixer (left opaque). */
    method Update()
      modifies this
      ensures updates == old(updates) + 1
    {
      updates := updates + 1;
    }
  }

  /** The event World waits for. */
  const ReadyEvent: string := "ready"

  /** Which subsystem a creation built. */
  datatype Part = EnvironmentPart | FloorPart | FoxPart

  /** `resources.on('ready', listener)` adds the listener to what a `ready` trigger invokes, once more. */
  lemma ReadyReachesListener(c: Callbacks, listener: CallbackId)
    requires WellFormed(c)
    ensures multiset(Fanout(RegisterAll(c, ResolveNames("ready"), listener), "ready")) == multiset(Fanout(c, "ready")) + multiset{listener}
  {
    FrameworkEvents();
    TargetOfWord("ready");
    assert RegisterAll(c, ["ready"], listener) == Register(c, Base, "ready", listener);
    FanoutAfterRegister(c, Base, "ready", listener);
  }

  class World {
    const resources: Resources
    const listener: CallbackId
    var environment: Environment?
    var floor: Floor?
    var fox: Fox?
    /** The subsystems built so far, in the order they were built. */
    ghost var created: seq<Part>

    /** Construction only subscribes to `ready`: no subsystem exists yet. */
    constructor (resources: Resources, listener: CallbackId)
      requires resources.Valid()
      modifies resources.events
      ensures resources.Valid()
      ensures this.resources == resources && this.listener == listener
      ensures resources.events.callbacks == RegisterAll(old(resources.events.callbacks), ResolveNames(ReadyEvent), listener)
      ensures environment == null && floor == null && fox == null && created == []
    {
      var chained := resources.On(Defined(ReadyEvent), Defined(listener));
      assert chained == Itself;
      this.resources := resources;
      this.listener := listener;
      environment, floor, fox := null, null, null;
      created := [];
    }

    /**
     * The `ready` listener: environment, then floor, then fox, each newly
     * built. It is not one-shot: each `ready` builds all three again.
     */
    method OnReady()
      modifies this
      ensures fresh(environment) && fresh(floor) && fresh(fox)
      ensures fox != null && fox.updates == 0
      ensures created == old(created) + [EnvironmentPart, FloorPart, FoxPart]
    {
      environment := new Environment();
      created := created + [EnvironmentPart];
      floor := new Floor();
      created := created + [FloorPart];
      fox := new Fox();
      created := created + [FoxPart];
    }

    /**
     * `update`: exactly one `fox.update()` once the fox exists. Before that
     * the frame `modifies fox` is empty, so nothing at all can change.
     */
    method Update()
      modifies fox
      ensures fox != null ==> fox.updates == old(fox.updates) + 1
    {
      if fox != null {
        fox.Update();
      }
    }
  }
}
