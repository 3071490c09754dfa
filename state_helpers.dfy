/** Attribute groups: `group(name, defaults)` is a get/set view over one key
    of the user's persisted data, and `SubGroup` nests such a view one key
    deeper. The data lives either in `app.persist` (an abstract key-value
    store) or, for older contexts, in the mutable object `app.user.storage`. */
module StateHelpers {
  import opened Js

  datatype Error =
    | InvalidApp      // "Argument 'app' should be DialogflowApp object ..."
    | MissingStorage  // "\"data\" field is missed in app ..."
    | TypeError       // a property read on `undefined` or `null`

  /** `app.user` as the legacy backend sees it; `None` storage is a missing or falsy one. */
  datatype User = NoUser | User(storage: Option<map<string, Value>>)

  /** The persisted data a context exposes: the `app.persist` store when
      `app.persist` is set, and `app.user`. */
  datatype State = State(persist: Option<map<string, Value>>, user: User)

  /** What a getter or setter receives as `app`. */
  datatype View = StringView | FalsyView | AppView(state: State)

  /** The conversation context whose stores the setters update in place. */
  class App {
    var persist: Option<map<string, Value>>
    var user: User

    constructor (persist: Option<map<string, Value>>, user: User)
      ensures this.persist == persist && this.user == user
    {
      this.persist := persist;
      this.user := user;
    }

    function Snapshot(): State
      reads this
    {
      State(persist, user)
    }
  }

  /** The JavaScript value passed as `app`: a string, a falsy value, or a context. */
  datatype Arg = StringArg(text: string) | FalsyArg | AppArg(app: App) {
    function Objects(): set<object> {
      if AppArg? then {app} else {}
    }

    function View(): View
      reads Objects()
    {
      match this
      case StringArg(_) => StringView
      case FalsyArg => FalsyView
      case AppArg(app) => AppView(app.Snapshot())
    }
  }

  /** The store a write goes to: `app.persist` when set, else `app.user.storage`. */
  function Put(s: State, key: string, x: Value): State {
    if s.persist.Some? then s.(persist := Some(s.persist.value[key := x]))
    else if s.user.User? && s.user.storage.Some? then s.(user := User(Some(s.user.storage.value[key := x])))
    else s
  }

  /** The context has a store: `app.persist`, or else `app.user.storage`. */
  predicate HasStore(s: State) {
    s.persist.Some? || (s.user.User? && s.user.storage.Some?)
  }

  /** The store reads and writes go to: `app.persist` when set, else `app.user.storage`. */
  function Store(s: State): map<string, Value>
    requires HasStore(s)
  {
    if s.persist.Some? then s.persist.value else s.user.storage.value
  }

  /** `obj[key]` on whatever value a parent returned. */
  function Property(v: Value, key: string): Result<Value, Error> {
    match v
    case Obj(fields) => Ok(Field(fields, key))
    case Undefined => Err(TypeError)
    case Null => Err(TypeError)
    case _ => Ok(Undefined)
  }

  /** `Object.assign({}, v, {[key]: x})`. */
  function Merge(v: Value, key: string, x: Value): Value {
    Obj((if v.Obj? then v.fields else map[])[key := x])
  }

  /** `group(name, defaults).getData(app)`. */
  function GroupRead(name: string, defaults: Value, view: View): (r: Result<Value, Error>)
    ensures r.Ok? <==> view.AppView? && HasStore(view.state)
    ensures r.Ok? ==> r.value == Or(Field(Store(view.state), name), defaults)
  {
    match view
    case StringView => Err(InvalidApp)
    case FalsyView => Err(TypeError)
    case AppView(s) =>
      if s.persist.Some? then Ok(Or(Field(s.persist.value, name), defaults))
      else
        match s.user
        case NoUser => Err(TypeError)
        case User(None) => Err(MissingStorage)
        case User(Some(storage)) => Ok(Or(Field(storage, name), defaults))
  }

  /** `group(name, defaults).setData(app, x)`, as the state it leaves. */
  function GroupWrite(name: string, view: View, x: Value): (r: Result<State, Error>)
    ensures r.Ok? <==> view.AppView? && HasStore(view.state)
    ensures r.Ok? ==> HasStore(r.value) && Store(r.value) == Store(view.state)[name := x]
    ensures r.Ok? ==> (r.value.persist.Some? <==> view.state.persist.Some?)
    ensures r.Ok? && view.state.persist.Some? ==> r.value.user == view.state.user
  {
    match view
    case StringView => Err(InvalidApp)
    case FalsyView => Err(InvalidApp)
    case AppView(s) =>
      if s.persist.Some? then Ok(Put(s, name, x))
      else
        match s.user
        case NoUser => Err(TypeError)
        case User(None) => Err(MissingStorage)
        case User(Some(_)) => Ok(Put(s, name, x))
  }

  /** A getter/setter pair: a top-level group or a sub-group of another accessor. */
  datatype Accessor =
    | Group(name: string, defaults: Value)
    | SubGroup(name: string, parent: Accessor, defaultSubGroup: Value)
  {
    /** The value a read falls back to when the stored one is falsy. */
    function Default(): Value {
      if Group? then defaults else defaultSubGroup
    }

    /** The top-level key under which the accessor's data is stored. */
    function Root(): string {
      match this
      case Group(name, _) => name
      case SubGroup(_, parent, _) => parent.Root()
    }

    /** A default as JavaScript hands it over: `defaults = {}` and
        `defaultSubGroup = {}` replace an omitted or `undefined` argument,
        so no default along the chain is `undefined`. */
    predicate WellFormed() {
      Default() != Undefined && (SubGroup? ==> parent.WellFormed())
    }

    /** `getData(app)`: it needs a context with a store, and yields a truthy
        value or the accessor's default. */
    function Read(view: View): (r: Result<Value, Error>)
      ensures r.Ok? ==> view.AppView? && HasStore(view.state)
      ensures r.Ok? ==> r.value.Truthy() || r.value == Default()
    {
      match this
      case Group(name, defaults) => GroupRead(name, defaults, view)
      case SubGroup(name, parent, defaultSubGroup) =>
        var current :- parent.Read(view);
        var x :- Property(current, name);
        Ok(Or(x, defaultSubGroup))
    }

    /** `setData(app, x)`, as the state it leaves. A sub-group reads its
        parent's data first and writes back a copy with its own key replaced. */
    function Write(view: View, x: Value): (r: Result<State, Error>)
      ensures r.Ok? ==> view.AppView? && HasStore(view.state) && HasStore(r.value)
      ensures r.Ok? ==> (r.value.persist.Some? <==> view.state.persist.Some?)
      ensures r.Ok? ==> Store(r.value).Keys == Store(view.state).Keys + {Root()}
    {
      match this
      case Group(name, _) => GroupWrite(name, view, x)
      case SubGroup(name, parent, _) =>
        var current :- parent.Read(view);
        parent.Write(view, Merge(current, name, x))
    }

    /** `setData(app, x)` on a live context: mutates the context's store in
        place, or throws (leaving it untouched). */
    method SetData(arg: Arg, x: Value) returns (r: Result<(), Error>)
      modifies arg.Objects()
      decreases this
      ensures Write(old(arg.View()), x).Ok? <==> r.Ok?
      ensures r.Err? ==> Write(old(arg.View()), x) == Err(r.error)
      ensures arg.AppArg? && r.Ok? ==> arg.app.Snapshot() == Write(old(arg.View()), x).value
      ensures arg.AppArg? && r.Err? ==> arg.app.Snapshot() == old(arg.app.Snapshot())
    {
      match this
      case Group(name, _) =>
        match arg {
          case StringArg(_) => r := Err(InvalidApp);
          case FalsyArg => r := Err(InvalidApp);
          case AppArg(app) =>
            if app.persist.Some? {
              app.persist := Some(app.persist.value[name := x]);
              r := Ok(());
            } else if app.user.NoUser? {
              r := Err(TypeError);
            } else if app.user.storage.None? {
              r := Err(MissingStorage);
            } else {
              app.user := User(Some(app.user.storage.value[name := x]));
              r := Ok(());
            }
        }
      case SubGroup(name, parent, _) =>
        var current := parent.Read(arg.View());
        if current.Err? {
          return Err(current.error);
        }
        r := parent.SetData(arg, Merge(current.value, name, x));
    }
  }

  /** `group(name, defaults)`: an omitted or `undefined` default becomes `{}`. */
  function MakeGroup(name: string, defaults: Value): (a: Accessor)
    ensures a.Group? && a.name == name && a.WellFormed()
    ensures defaults != Undefined ==> a.defaults == defaults
  {
    Group(name, if defaults == Undefined then Obj(map[]) else defaults)
  }

  /** `new SubGroup(name, parent, defaultSubGroup)`: an omitted or `undefined`
      default becomes `{}`. */
  function MakeSubGroup(name: string, parent: Accessor, defaultSubGroup: Value): (a: Accessor)
    ensures a.SubGroup? && a.name == name && a.parent == parent
    ensures parent.WellFormed() ==> a.WellFormed()
    ensures defaultSubGroup != Undefined ==> a.defaultSubGroup == defaultSubGroup
  {
    SubGroup(name, parent, if defaultSubGroup == Undefined then Obj(map[]) else defaultSubGroup)
  }

  /** A well-formed accessor never reads `undefined`, and reads `null` only when
      its own default is `null`. */
  lemma WellFormedReadDefined(acc: Accessor, view: View)
    requires acc.WellFormed() && acc.Read(view).Ok?
    ensures acc.Read(view).value != Undefined
    ensures acc.Read(view).value == Null ==> acc.Default() == Null
  {
  }

  /** With defaults omitted, a sub-group of a fresh group reads its own default:
      the group falls back to `{}`, whose missing key gives way to `"d"`. */
  lemma OmittedDefaultsRead()
    ensures MakeSubGroup("s", MakeGroup("g", Undefined), Str("d")).Read(AppView(State(Some(map[]), NoUser)))
         == Ok(Str("d"))
  {
    var view := AppView(State(Some(map[]), NoUser));
    assert MakeGroup("g", Undefined).Read(view) == Ok(Obj(map[]));
  }

  // ---------------------------------------------------------------------
  // Error conditions
  // ---------------------------------------------------------------------

  /** Every getter throws on a string `app` (the explicit check) and on a
      falsy one (reading `app.persist` fails). */
  lemma {:induction false} ReadRejectsBadApp(acc: Accessor)
    ensures acc.Read(StringView) == Err(InvalidApp)
    ensures acc.Read(FalsyView) == Err(TypeError)
  {
    if acc.SubGroup? {
      ReadRejectsBadApp(acc.parent);
    }
  }

  /** Every setter throws on a string or falsy `app`. A sub-group reads its
      parent before writing, so on a falsy `app` it fails in that read. */
  lemma WriteRejectsBadApp(acc: Accessor, x: Value)
    ensures acc.Write(StringView, x) == Err(InvalidApp)
    ensures acc.Write(FalsyView, x) == Err(if acc.Group? then InvalidApp else TypeError)
  {
    if acc.SubGroup? {
      ReadRejectsBadApp(acc.parent);
    }
  }

  /** Without `app.persist`, a missing `app.user.storage` makes every getter and
      setter throw, and so does a missing `app.user`. */
  lemma {:induction false} LegacyWithoutStorageRejects(acc: Accessor, s: State, x: Value)
    requires s.persist.None?
    ensures s.user == User(None) ==>
      acc.Read(AppView(s)) == Err(MissingStorage) && acc.Write(AppView(s), x) == Err(MissingStorage)
    ensures s.user == NoUser ==>
      acc.Read(AppView(s)) == Err(TypeError) && acc.Write(AppView(s), x) == Err(TypeError)
  {
    if acc.SubGroup? {
      LegacyWithoutStorageRejects(acc.parent, s, x);
    }
  }

  // ---------------------------------------------------------------------
  // Backend selection
  // ---------------------------------------------------------------------

  /** When `app.persist` is set, `app.user` is neither read nor written. */
  lemma {:induction false} PersistBackendIgnoresUser(acc: Accessor, s: State, u: User, x: Value)
    requires s.persist.Some?
    ensures acc.Read(AppView(s)) == acc.Read(AppView(s.(user := u)))
    ensures acc.Write(AppView(s), x).Ok? ==> acc.Write(AppView(s), x).value.user == s.user
  {
    if acc.SubGroup? {
      PersistBackendIgnoresUser(acc.parent, s, u, x);
      var current := acc.parent.Read(AppView(s));
      if current.Ok? {
        PersistBackendIgnoresUser(acc.parent, s, u, Merge(current.value, acc.name, x));
      }
    }
  }

  /** A write stores one value under the accessor's top-level key, in the
      backend the context selects, and changes nothing else. */
  lemma {:induction false} WriteIsSinglePut(acc: Accessor, view: View, x: Value)
    requires acc.Write(view, x).Ok?
    ensures view.AppView?
    ensures HasStore(view.state)
    ensures exists y :: acc.Write(view, x).value == Put(view.state, acc.Root(), y)
    ensures acc.Group? ==> acc.Write(view, x).value == Put(view.state, acc.Root(), x)
  {
    match acc
    case Group(name, _) =>
      assert acc.Write(view, x).value == Put(view.state, acc.Root(), x);
    case SubGroup(name, parent, _) =>
      var merged := Merge(parent.Read(view).value, name, x);
      assert acc.Write(view, x) == parent.Write(view, merged);
      WriteIsSinglePut(parent, view, merged);
      var y :| parent.Write(view, merged).value == Put(view.state, parent.Root(), y);
      assert acc.Write(view, x).value == Put(view.state, acc.Root(), y);
  }

  /** A put leaves the backend choice and every other key of the selected store as they were. */
  lemma PutKeepsOtherKeys(s: State, key: string, x: Value)
    requires HasStore(s)
    ensures s.persist.Some? ==>
      && Put(s, key, x).user == s.user
      && Put(s, key, x).persist.Some?
      && Put(s, key, x).persist.value - {key} == s.persist.value - {key}
      && Field(Put(s, key, x).persist.value, key) == x
    ensures s.persist.None? ==>
      && Put(s, key, x).persist.None?
      && Put(s, key, x).user.User? && Put(s, key, x).user.storage.Some?
      && Put(s, key, x).user.storage.value - {key} == s.user.storage.value - {key}
      && Field(Put(s, key, x).user.storage.value, key) == x
  {
  }

  // ---------------------------------------------------------------------
  // Reading back what was written
  // ---------------------------------------------------------------------

  /** After a successful write of `x`, the same accessor reads `x` back, or its
      default when `x` is falsy. */
  lemma {:induction false} ReadAfterWrite(acc: Accessor, view: View, x: Value)
    requires acc.Write(view, x).Ok?
    ensures view.AppView?
    ensures acc.Read(AppView(acc.Write(view, x).value)) == Ok(Or(x, acc.Default()))
  {
    match acc
    case Group(name, _) =>
    case SubGroup(name, parent, _) =>
      var current := parent.Read(view).value;
      var merged := Merge(current, name, x);
      ReadAfterWrite(parent, view, merged);
      assert parent.Read(AppView(acc.Write(view, x).value)) == Ok(merged);
      assert Property(merged, name) == Ok(x);
  }

  /** A truthy value written through an accessor reads back unchanged. */
  lemma ReadAfterWriteTruthy(acc: Accessor, view: View, x: Value)
    requires acc.Write(view, x).Ok? && x.Truthy()
    ensures acc.Read(AppView(acc.Write(view, x).value)) == Ok(x)
  {
    ReadAfterWrite(acc, view, x);
  }

  /** A sub-group write hands its parent the parent's current data with only
      the sub-group's key replaced. */
  lemma SubGroupWriteMerges(name: string, parent: Accessor, d: Value, view: View, x: Value)
    requires SubGroup(name, parent, d).Write(view, x).Ok?
    ensures parent.Read(view).Ok?
    ensures var s' := SubGroup(name, parent, d).Write(view, x).value;
      parent.Read(AppView(s')) == Ok(Merge(parent.Read(view).value, name, x))
    ensures var current := parent.Read(view).value;
      forall k :: k != name && current.Obj? ==>
        Property(Merge(current, name, x), k) == Property(current, k)
  {
    ReadAfterWrite(parent, view, Merge(parent.Read(view).value, name, x));
  }

  // ---------------------------------------------------------------------
  // Independence of groups
  // ---------------------------------------------------------------------

  /** A read depends on its top-level key only: a put under another key leaves it unchanged. */
  lemma {:induction false} ReadIgnoresOtherRoots(acc: Accessor, s: State, key: string, y: Value)
    requires HasStore(s)
    requires acc.Root() != key
    ensures acc.Read(AppView(Put(s, key, y))) == acc.Read(AppView(s))
  {
    if acc.SubGroup? {
      ReadIgnoresOtherRoots(acc.parent, s, key, y);
    }
  }

  /** Writing through one accessor never changes what an accessor under a
      different top-level group reads. */
  lemma GroupsIndependent(a: Accessor, b: Accessor, view: View, x: Value)
    requires a.Write(view, x).Ok?
    requires a.Root() != b.Root()
    ensures b.Read(AppView(a.Write(view, x).value)) == b.Read(view)
  {
    WriteIsSinglePut(a, view, x);
    var y :| a.Write(view, x).value == Put(view.state, a.Root(), y);
    ReadIgnoresOtherRoots(b, view.state, a.Root(), y);
  }

  /** Two sub-groups with different names under the same parent do not clobber
      each other, provided the parent's data is not `null` or `undefined`. */
  lemma SiblingSubGroupsIndependent(parent: Accessor, n1: string, d1: Value, n2: string, d2: Value,
                                    view: View, x: Value)
    requires n1 != n2
    requires SubGroup(n1, parent, d1).Write(view, x).Ok?
    requires parent.Read(view).Ok? && !parent.Read(view).value.Nullish()
    ensures SubGroup(n2, parent, d2).Read(AppView(SubGroup(n1, parent, d1).Write(view, x).value))
         == SubGroup(n2, parent, d2).Read(view)
  {
    var current := parent.Read(view).value;
    var merged := Merge(current, n1, x);
    ReadAfterWrite(parent, view, merged);
    assert Property(merged, n2) == Property(current, n2);
  }

  /** The same with a `null` parent value fails: the sibling's read throws
      before the write and returns its default after it. */
  lemma SiblingOfNullParent(n1: string, n2: string, x: Value)
    requires n1 != n2
    ensures var parent := Group("game", Null);
      var view := AppView(State(Some(map[]), NoUser));
      var w := SubGroup(n1, parent, Null).Write(view, x);
      && w.Ok?
      && SubGroup(n2, parent, Str("d")).Read(view) == Err(TypeError)
      && SubGroup(n2, parent, Str("d")).Read(AppView(w.value)) == Ok(Str("d"))
  {
    var parent := Group("game", Null);
    var view := AppView(State(Some(map[]), NoUser));
    assert parent.Read(view) == Ok(Null);
    var w := SubGroup(n1, parent, Null).Write(view, x);
    assert w == parent.Write(view, Merge(Null, n1, x));
    assert parent.Read(AppView(w.value)) == Ok(Merge(Null, n1, x));
  }
}
