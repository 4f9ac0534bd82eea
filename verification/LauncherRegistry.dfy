/**
 The registry of the NVSSVT launcher: the runs it knows and the run ids claimed by a
 launch still in flight. Each function is one section the launcher executes while it
 holds the registry lock.
 */
module LauncherRegistry {
  import opened Text

  type RunId = string

  /** `runs` maps a registered run id to a handle of its process. */
  datatype Registry<+P> = Registry(runs: map<RunId, P>, reserved: set<RunId>) {

    predicate Knows(id: RunId) {
      id in runs || id in reserved
    }

    /** A launch claims `id`, unless it is registered or claimed already. */
    function Reserve(id: RunId): Option<Registry<P>> {
      if Knows(id) then None else Some(this.(reserved := reserved + {id}))
    }

    /** A failing launch gives its claim back. */
    function Discard(id: RunId): Registry<P> {
      this.(reserved := reserved - {id})
    }
  }

  /** A launch that started its process turns its claim into a registration. */
  function Register<P>(g: Registry<P>, id: RunId, process: P): Registry<P> {
    Registry(g.runs[id := process], g.reserved - {id})
  }

  /** The cleanup must leave `id` alone: it is claimed, or its process still runs. */
  predicate InUse<P(==)>(g: Registry<P>, running: set<P>, id: RunId) {
    id in g.reserved || (id in g.runs && g.runs[id] in running)
  }

  /** The cleanup forgets `id` before it deletes the directory. */
  function Unregister<P>(g: Registry<P>, id: RunId): Registry<P> {
    g.(runs := g.runs - {id})
  }
}
