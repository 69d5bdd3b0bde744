// The plugin base class of utils/abc/module.py: the `name` keyword checked
// when a plugin class is defined, and the `now` flag that the context-manager
// protocol raises on entry and lowers on exit.

module ModuleBase {
  import opened Wrappers
  import opened PyExceptions

  const NameMissing: string := "name query parameter"
  const NoKeywords: string := "__init_subclass__() takes no keyword arguments"

  /** The class-definition hook: `name` is mandatory and is popped from the
      keywords; whatever keywords remain go up to `object.__init_subclass__`,
      which accepts none. The result is the value bound to the class
      attribute `name`. */
  function InitSubclass<V>(kwargs: map<string, V>): (r: Result<V, Exc>)
    ensures r.Success? <==> kwargs.Keys == {"name"}
    ensures r.Success? ==> r.value == kwargs["name"]
    ensures r.Failure? && r.error.kind == ValueError <==> "name" !in kwargs
    ensures r.Failure? && r.error.kind == TypeError <==> "name" in kwargs && kwargs.Keys != {"name"}
    ensures r.Failure? ==> r.error.kind in {ValueError, TypeError}
  {
    if "name" !in kwargs then Failure(Exc(ValueError, NameMissing))
    else
      var rest := kwargs - {"name"};
      if rest != map[] then
        assert exists k :: k in rest;
        Failure(Exc(TypeError, NoKeywords))
      else
        assert kwargs.Keys == {"name"} by {
          assert forall k :: k in kwargs ==> k == "name" || k in rest;
        }
        Success(kwargs["name"])
  }

  /** Extra keywords are refused even when `name` is there; without `name`
      the `ValueError` comes first, whatever else is passed. */
  lemma InitSubclassOrder<V>(name: V, other: string, v: V)
    requires other != "name"
    ensures InitSubclass(map["name" := name]) == Success(name)
    ensures InitSubclass(map["name" := name, other := v]).Failure?
    ensures InitSubclass(map["name" := name, other := v]).error.kind == TypeError
    ensures InitSubclass(map[other := v]) == Failure(Exc(ValueError, NameMissing))
  {
    assert "name" in map["name" := name, other := v] && other in map["name" := name, other := v];
  }

  /** An instance of a plugin class. `name` is the class attribute bound by
      `InitSubclass`; `now` says whether the instance is inside a `with`
      block. Before the first entry Python has no `now` attribute at all;
      the model reads that as false. */
  class Module {
    const name: string
    var now: bool

    constructor (name: string)
      ensures this.name == name && !now
    {
      this.name := name;
      now := false;
    }

    /** `__enter__`: raises the flag and hands back the instance itself. */
    method Enter() returns (m: Module)
      modifies this
      ensures now && m == this
    {
      now := true;
      m := this;
    }

    /** `__exit__`: lowers the flag whatever exception is passing through,
        and returns None, so that exception is never suppressed. */
    method Exit(exc: Option<Exc>) returns (suppress: bool)
      modifies this
      ensures !now && !suppress
    {
      now := false;
      suppress := false;
    }
  }

  /** A `with` block around a body whose outcome is given: the module is
      entered, the body runs, the module is exited, and whatever the body
      raised propagates unchanged. */
  method WithBlock(m: Module, body: Option<Exc>) returns (raised: Option<Exc>)
    modifies m
    ensures !m.now && raised == body
  {
    var entered := m.Enter();
    var suppress := m.Exit(body);
    raised := if suppress then None else body;
  }
}
