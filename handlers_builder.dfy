/** The Alexa request-handler builder: it resolves an incoming intent name
    or request type to a registered action, and turns the action map into
    the ordered list of `{intent, canHandle, handle}` entries the Alexa SDK
    consumes, ending with a catch-all. */
module HandlersBuilder {
  import opened Js
  import opened Segments

  // ---------------------------------------------------------------------
  // Name rewrites
  // ---------------------------------------------------------------------

  const AmazonPrefix: string := "AMAZON."
  const IntentSuffix: string := "Intent"
  const AudioPlayerPrefix: string := "AudioPlayer."

  /** The characters a regular-expression `.` does not match. */
  predicate IsLineTerminator(c: char) {
    c == '\n' || c == '\r' || c == '\U{2028}' || c == '\U{2029}'
  }

  /** What `(.*)` can capture: any run of characters without a line terminator. */
  predicate NoLineBreak(s: string) {
    forall i :: 0 <= i < |s| ==> !IsLineTerminator(s[i])
  }

  /** `name` matches `/^AMAZON\.(.*)Intent$/`. */
  ghost predicate MatchesAmazonIntent(name: string) {
    exists x :: NoLineBreak(x) && name == AmazonPrefix + x + IntentSuffix
  }

  /** `name` matches `/^AudioPlayer\.(.*)$/`. */
  ghost predicate MatchesAudioPlayer(requestType: string) {
    exists x :: NoLineBreak(x) && requestType == AudioPlayerPrefix + x
  }

  lemma AmazonIntentParts(name: string, x: string)
    requires name == AmazonPrefix + x + IntentSuffix
    ensures |name| >= |AmazonPrefix| + |IntentSuffix|
    ensures name[..|AmazonPrefix|] == AmazonPrefix
    ensures name[|name| - |IntentSuffix|..] == IntentSuffix
    ensures name[|AmazonPrefix|..|name| - |IntentSuffix|] == x
  {
  }

  lemma AudioPlayerParts(requestType: string, x: string)
    requires requestType == AudioPlayerPrefix + x
    ensures |requestType| >= |AudioPlayerPrefix|
    ensures requestType[..|AudioPlayerPrefix|] == AudioPlayerPrefix
    ensures requestType[|AudioPlayerPrefix|..] == x
  {
  }

  /** `stripAmazonIntent`: the captured middle of `AMAZON.<X>Intent`, any other name unchanged. */
  function StripAmazonIntent(name: string): (r: string)
    ensures MatchesAmazonIntent(name) ==> NoLineBreak(r) && name == AmazonPrefix + r + IntentSuffix
    ensures !MatchesAmazonIntent(name) ==> r == name
  {
    var lo, hi := |AmazonPrefix|, |name| - |IntentSuffix|;
    if lo <= hi && name[..lo] == AmazonPrefix && name[hi..] == IntentSuffix && NoLineBreak(name[lo..hi]) then
      assert name == AmazonPrefix + name[lo..hi] + IntentSuffix by {
        assert name == name[..lo] + name[lo..hi] + name[hi..];
      }
      name[lo..hi]
    else
      assert !MatchesAmazonIntent(name) by {
        forall x | name == AmazonPrefix + x + IntentSuffix ensures !NoLineBreak(x) {
          AmazonIntentParts(name, x);
        }
      }
      name
  }

  /** `stripRequestType`: `<X>` of `AudioPlayer.<X>`, any other request type unchanged. */
  function StripRequestType(requestType: string): (r: string)
    ensures MatchesAudioPlayer(requestType) ==> NoLineBreak(r) && requestType == AudioPlayerPrefix + r
    ensures !MatchesAudioPlayer(requestType) ==> r == requestType
  {
    var lo := |AudioPlayerPrefix|;
    if lo <= |requestType| && requestType[..lo] == AudioPlayerPrefix && NoLineBreak(requestType[lo..]) then
      assert requestType == AudioPlayerPrefix + requestType[lo..] by {
        assert requestType == requestType[..lo] + requestType[lo..];
      }
      requestType[lo..]
    else
      assert !MatchesAudioPlayer(requestType) by {
        forall x | requestType == AudioPlayerPrefix + x ensures !NoLineBreak(x) {
          AudioPlayerParts(requestType, x);
        }
      }
      requestType
  }

  /** Stripping undoes wrapping a base name in `AMAZON.` and `Intent`. */
  lemma StripAmazonIntentInverse(x: string)
    requires NoLineBreak(x)
    ensures StripAmazonIntent(AmazonPrefix + x + IntentSuffix) == x
  {
    var name := AmazonPrefix + x + IntentSuffix;
    assert MatchesAmazonIntent(name);
    var r := StripAmazonIntent(name);
    AmazonIntentParts(name, r);
    AmazonIntentParts(name, x);
  }

  /** Stripping undoes prefixing a base name with `AudioPlayer.`. */
  lemma StripRequestTypeInverse(x: string)
    requires NoLineBreak(x)
    ensures StripRequestType(AudioPlayerPrefix + x) == x
  {
    var requestType := AudioPlayerPrefix + x;
    assert MatchesAudioPlayer(requestType);
    var r := StripRequestType(requestType);
    AudioPlayerParts(requestType, r);
    AudioPlayerParts(requestType, x);
  }

  // ---------------------------------------------------------------------
  // Requests and the action map
  // ---------------------------------------------------------------------

  /** The two fields of `handlerInput.requestEnvelope.request` the resolver reads:
      `intent.name` and `type`, each either `undefined` or a string. */
  datatype Request = Request(intentName: Option<string>, requestType: Option<string>)

  /** A JavaScript `Map` from action name to its handlers, in insertion order. */
  type ActionMap<H> = seq<(string, H)>

  /** Position of the first entry with key `key`, or `|actions|` when there is none. */
  function IndexOf<H>(actions: ActionMap<H>, key: string): (i: nat)
    ensures i <= |actions|
    ensures i < |actions| ==> actions[i].0 == key
    ensures forall j :: 0 <= j < i ==> actions[j].0 != key
  {
    if |actions| == 0 then 0
    else if actions[0].0 == key then 0
    else 1 + IndexOf(actions[1..], key)
  }

  /** `actions.get(key)`; a handler list is an array, so a present one is truthy. */
  function Lookup<H>(actions: ActionMap<H>, key: string): (h: Option<H>)
    ensures h.Some? <==> exists i :: 0 <= i < |actions| && actions[i].0 == key
    ensures h.Some? ==>
      exists i :: 0 <= i < |actions| && actions[i] == (key, h.value) && (forall j :: 0 <= j < i ==> actions[j].0 != key)
  {
    var i := IndexOf(actions, key);
    if i < |actions| then Some(actions[i].1) else None
  }

  /** `camelToKebab` is not part of this model; it is a parameter, applied
      to the JavaScript value of `name`, which may be `undefined`. */
  type Kebab = Option<string> -> string

  datatype Resolution<H> =
    | Found(handlers: H, name: Option<string>)  // `{handlers, name}`
    | NoMatch                                    // `null`
    | NameUndefined                              // `name.split` on `undefined` throws

  // ---------------------------------------------------------------------
  // Resolution, as the ordered list of names it tries
  // ---------------------------------------------------------------------

  function StripIntentName(name: Option<string>): Option<string> {
    match name
    case None => None
    case Some(n) => Some(StripAmazonIntent(n))
  }

  /** The names looked up before truncation, in order. */
  function EarlyNames(req: Request): seq<Option<string>> {
    [req.intentName, StripIntentName(req.intentName)]
    + (if TruthyString(req.requestType) then [Some(StripRequestType(req.requestType.value))] else [])
  }

  /** The name whose `_`-segments are dropped one by one. */
  function TruncationBase(req: Request): Option<string> {
    if TruthyString(req.requestType) then Some(StripRequestType(req.requestType.value))
    else StripIntentName(req.intentName)
  }

  /** The names the truncation loop looks up, in order: `s` with its last
      segment dropped, then its last two, ..., down to its first segment. */
  function Truncations(s: string): seq<string> {
    var parts := Split(s);
    seq(|parts| - 1, i requires 0 <= i < |parts| - 1 => Join(parts[..|parts| - 1 - i]))
  }

  function Lift(names: seq<string>): seq<Option<string>> {
    seq(|names|, i requires 0 <= i < |names| => Some(names[i]))
  }

  /** Position of the first name whose lookup hits, or `|names|`. */
  function HitIndex<H>(actions: ActionMap<H>, kebab: Kebab, names: seq<Option<string>>): (i: nat)
    ensures i <= |names|
    ensures i < |names| ==> Lookup(actions, kebab(names[i])).Some?
    ensures forall j :: 0 <= j < i ==> Lookup(actions, kebab(names[j])).None?
  {
    if |names| == 0 then 0
    else if Lookup(actions, kebab(names[0])).Some? then 0
    else 1 + HitIndex(actions, kebab, names[1..])
  }

  /** The first name in `names` that the map knows, with its handlers. */
  function FirstHit<H>(actions: ActionMap<H>, kebab: Kebab, names: seq<Option<string>>): (f: Resolution<H>)
    ensures !f.NameUndefined?
    ensures f.Found? ==> f.name in names && Lookup(actions, kebab(f.name)) == Some(f.handlers)
    ensures f.NoMatch? ==> AllMiss(actions, kebab, names)
  {
    var i := HitIndex(actions, kebab, names);
    if i < |names| then Found(Lookup(actions, kebab(names[i])).value, names[i]) else NoMatch
  }

  /** What `findHandlersByInput` returns: the first hit among the early names;
      failing that, the first hit among the truncations of the truncation base. */
  function Resolve<H>(actions: ActionMap<H>, kebab: Kebab, req: Request): (r: Resolution<H>)
    ensures r.Found? ==> Lookup(actions, kebab(r.name)) == Some(r.handlers)
    ensures r.Found? ==> r.name in Attempts(req)
    ensures r == NameUndefined ==> TruncationBase(req).None? && AllMiss(actions, kebab, EarlyNames(req))
  {
    var early := FirstHit(actions, kebab, EarlyNames(req));
    if early.Found? then early
    else
      match TruncationBase(req)
      case None => NameUndefined
      case Some(s) => FirstHit(actions, kebab, Lift(Truncations(s)))
  }

  /** Every name resolution may look up, in order: the early names, then the
      truncations of the truncation base when there is one. */
  function Attempts(req: Request): seq<Option<string>> {
    EarlyNames(req)
    + match TruncationBase(req)
      case None => []
      case Some(s) => Lift(Truncations(s))
  }

  /** No name in `names` is a registered action. */
  predicate AllMiss<H>(actions: ActionMap<H>, kebab: Kebab, names: seq<Option<string>>) {
    forall j :: 0 <= j < |names| ==> Lookup(actions, kebab(names[j])).None?
  }

  lemma AllMissAppend<H>(actions: ActionMap<H>, kebab: Kebab, a: seq<Option<string>>, b: seq<Option<string>>)
    ensures AllMiss(actions, kebab, a + b) <==> AllMiss(actions, kebab, a) && AllMiss(actions, kebab, b)
  {
    if AllMiss(actions, kebab, a) && AllMiss(actions, kebab, b) {
      forall j | 0 <= j < |a + b| ensures Lookup(actions, kebab((a + b)[j])).None? {
        if j >= |a| { assert (a + b)[j] == b[j - |a|]; }
      }
    }
    if AllMiss(actions, kebab, a + b) {
      forall j | 0 <= j < |a| ensures Lookup(actions, kebab(a[j])).None? {
        assert (a + b)[j] == a[j];
      }
      forall j | 0 <= j < |b| ensures Lookup(actions, kebab(b[j])).None? {
        assert (a + b)[|a| + j] == b[j];
      }
    }
  }

  /** The first hit is at `i` when every earlier name misses and `names[i]` hits. */
  lemma FirstHitAt<H>(actions: ActionMap<H>, kebab: Kebab, names: seq<Option<string>>, i: nat)
    requires i < |names| && AllMiss(actions, kebab, names[..i])
    requires Lookup(actions, kebab(names[i])).Some?
    ensures FirstHit(actions, kebab, names) == Found(Lookup(actions, kebab(names[i])).value, names[i])
  {
  }

  /** Resolution when the early names all miss. */
  lemma ResolveAfterEarly<H>(actions: ActionMap<H>, kebab: Kebab, req: Request)
    requires AllMiss(actions, kebab, EarlyNames(req))
    ensures Resolve(actions, kebab, req) ==
      match TruncationBase(req)
      case None => NameUndefined
      case Some(s) => FirstHit(actions, kebab, Lift(Truncations(s)))
  {
    assert FirstHit(actions, kebab, EarlyNames(req)) == NoMatch;
  }

  /** `tried` is the run of lookups through `all` that stops at the first
      hit (`found`), or goes through all of `all` without one. */
  predicate Tried<H>(actions: ActionMap<H>, kebab: Kebab, all: seq<Option<string>>,
                     tried: seq<Option<string>>, found: bool)
  {
    && tried <= all
    && (found ==> |tried| > 0 && AllMiss(actions, kebab, tried[..|tried| - 1])
                  && Lookup(actions, kebab(tried[|tried| - 1])).Some?)
    && (!found ==> tried == all && AllMiss(actions, kebab, tried))
  }

  /** A run that stops at a hit among the early names. */
  lemma TriedEarlyHit<H>(actions: ActionMap<H>, kebab: Kebab, req: Request, k: nat)
    requires k < |EarlyNames(req)| && AllMiss(actions, kebab, EarlyNames(req)[..k])
    requires Lookup(actions, kebab(EarlyNames(req)[k])).Some?
    ensures Tried(actions, kebab, Attempts(req), EarlyNames(req)[..k + 1], true)
  {
    var early := EarlyNames(req);
    assert early[..k + 1][..k] == early[..k];
    assert early[..k + 1] <= early <= Attempts(req);
  }

  /** A run through all early names followed by a run through the truncations. */
  lemma TriedAfterEarly<H>(actions: ActionMap<H>, kebab: Kebab, req: Request,
                           more: seq<Option<string>>, found: bool)
    requires AllMiss(actions, kebab, EarlyNames(req))
    requires TruncationBase(req).Some?
    requires Tried(actions, kebab, Lift(Truncations(TruncationBase(req).value)), more, found)
    ensures Tried(actions, kebab, Attempts(req), EarlyNames(req) + more, found)
  {
    var early := EarlyNames(req);
    var names := Lift(Truncations(TruncationBase(req).value));
    assert Attempts(req) == early + names;
    AllMissAppend(actions, kebab, early, more);
    if found {
      assert (early + more)[..|early + more| - 1] == early + more[..|more| - 1];
      AllMissAppend(actions, kebab, early, more[..|more| - 1]);
    }
  }

  /** `findHandlersByInput`: reassigns `name` and `handlers` step by step,
      then drops segments of `name` (see `PopSegments`). `tried` records every
      name passed to `actions.get(camelToKebab(name))`. */
  method FindHandlersByInput<H>(actions: ActionMap<H>, kebab: Kebab, req: Request)
    returns (r: Resolution<H>, ghost tried: seq<Option<string>>)
    ensures r == Resolve(actions, kebab, req)
    ensures Tried(actions, kebab, Attempts(req), tried, r.Found?)
    ensures r.Found? ==> |tried| > 0 && r.name == tried[|tried| - 1]
  {
    ghost var early := EarlyNames(req);
    assert early[0] == req.intentName && early[1] == StripIntentName(req.intentName);
    var name := req.intentName;
    var handlers := Lookup(actions, kebab(name));
    tried := [name];
    assert tried == early[..1];
    if handlers.Some? {
      FirstHitAt(actions, kebab, early, 0);
      TriedEarlyHit(actions, kebab, req, 0);
      return Found(handlers.value, name), tried;
    }

    name := StripIntentName(name);
    handlers := Lookup(actions, kebab(name));
    tried := tried + [name];
    assert tried == early[..2];
    if handlers.Some? {
      FirstHitAt(actions, kebab, early, 1);
      TriedEarlyHit(actions, kebab, req, 1);
      return Found(handlers.value, name), tried;
    }

    var requestType := req.requestType;
    if TruthyString(requestType) {
      name := Some(StripRequestType(requestType.value));
      assert early[2] == name;
      handlers := Lookup(actions, kebab(name));
      tried := tried + [name];
      assert tried == early[..3];
      if handlers.Some? {
        FirstHitAt(actions, kebab, early, 2);
        TriedEarlyHit(actions, kebab, req, 2);
        return Found(handlers.value, name), tried;
      }
    }
    assert tried == early && AllMiss(actions, kebab, early);
    ResolveAfterEarly(actions, kebab, req);
    assert name == TruncationBase(req);

    if name.None? {
      assert Attempts(req) == early;
      return NameUndefined, tried;
    }
    ghost var more;
    r, more := PopSegments(actions, kebab, name.value);
    TriedAfterEarly(actions, kebab, req, more, r.Found?);
    tried := tried + more;
  }

  /** The loop of `findHandlersByInput` over `name.split('_')`: while more than
      one segment is left, pop the last one and look up the join of the rest. */
  method PopSegments<H>(actions: ActionMap<H>, kebab: Kebab, s: string)
    returns (r: Resolution<H>, ghost tried: seq<Option<string>>)
    ensures r == FirstHit(actions, kebab, Lift(Truncations(s)))
    ensures Tried(actions, kebab, Lift(Truncations(s)), tried, r.Found?)
    ensures r.Found? ==> |tried| > 0 && r.name == tried[|tried| - 1]
  {
    ghost var parts := Split(s);
    ghost var names := Lift(Truncations(s));
    var splitName := Split(s);
    assert |names| == |parts| - 1;
    tried := [];

    while |splitName| > 1
      invariant 1 <= |splitName| <= |parts|
      invariant splitName == parts[..|splitName|]
      invariant tried == names[..|parts| - |splitName|]
      invariant AllMiss(actions, kebab, tried)
    {
      splitName := splitName[..|splitName| - 1];
      assert splitName == parts[..|splitName|];
      var name := Some(Join(splitName));
      assert name == names[|tried|] by {
        assert Truncations(s)[|parts| - 1 - |splitName|] == Join(parts[..|splitName|]);
      }
      var handlers := Lookup(actions, kebab(name));
      assert names[..|parts| - |splitName|] == tried + [name];
      if handlers.Some? {
        FirstHitAt(actions, kebab, names, |tried|);
        tried := tried + [name];
        return Found(handlers.value, name), tried;
      }
      AllMissAppend(actions, kebab, tried, [name]);
      tried := tried + [name];
    }
    assert tried == names;
    return NoMatch, tried;
  }

  // ---------------------------------------------------------------------
  // Properties of resolution
  // ---------------------------------------------------------------------

  /** The first hit in `a + b` is the first hit in `a`, or else the first hit in `b`. */
  lemma FirstHitAppend<H>(actions: ActionMap<H>, kebab: Kebab, a: seq<Option<string>>, b: seq<Option<string>>)
    ensures FirstHit(actions, kebab, a + b)
         == if FirstHit(actions, kebab, a).Found? then FirstHit(actions, kebab, a) else FirstHit(actions, kebab, b)
  {
    var i, k, m := HitIndex(actions, kebab, a), HitIndex(actions, kebab, a + b), HitIndex(actions, kebab, b);
    assert forall j :: 0 <= j < |a| ==> (a + b)[j] == a[j];
    assert forall j :: 0 <= j < |b| ==> (a + b)[|a| + j] == b[j];
    if i < |a| {
      assert k == i;
    } else {
      assert k == |a| + m;
    }
  }

  /** Resolution is the first hit among every name it may try, in order; when
      none hits, it throws exactly when there is no name to truncate. */
  lemma ResolveIsFirstAttempt<H>(actions: ActionMap<H>, kebab: Kebab, req: Request)
    ensures FirstHit(actions, kebab, Attempts(req)).Found? ==>
      Resolve(actions, kebab, req) == FirstHit(actions, kebab, Attempts(req))
    ensures FirstHit(actions, kebab, Attempts(req)).NoMatch? ==>
      Resolve(actions, kebab, req) == if TruncationBase(req).None? then NameUndefined else NoMatch
  {
    var early := EarlyNames(req);
    match TruncationBase(req)
    case None =>
      assert Attempts(req) == early + [];
      FirstHitAppend(actions, kebab, early, []);
    case Some(t) =>
      assert Attempts(req) == early + Lift(Truncations(t));
      FirstHitAppend(actions, kebab, early, Lift(Truncations(t)));
  }

  /** The raw intent name is tried first, then the stripped intent name, then the
      stripped request type when there is a request type; the first hit wins. */
  lemma ResolveTriesInOrder<H>(actions: ActionMap<H>, kebab: Kebab, req: Request)
    ensures Lookup(actions, kebab(req.intentName)).Some? ==>
      Resolve(actions, kebab, req) == Found(Lookup(actions, kebab(req.intentName)).value, req.intentName)
    ensures (Lookup(actions, kebab(req.intentName)).None?
             && Lookup(actions, kebab(StripIntentName(req.intentName))).Some?) ==>
      Resolve(actions, kebab, req)
        == Found(Lookup(actions, kebab(StripIntentName(req.intentName))).value, StripIntentName(req.intentName))
    ensures (Lookup(actions, kebab(req.intentName)).None?
             && Lookup(actions, kebab(StripIntentName(req.intentName))).None?
             && TruthyString(req.requestType)
             && Lookup(actions, kebab(Some(StripRequestType(req.requestType.value)))).Some?) ==>
      Resolve(actions, kebab, req)
        == Found(Lookup(actions, kebab(Some(StripRequestType(req.requestType.value)))).value,
                 Some(StripRequestType(req.requestType.value)))
  {
    var early := EarlyNames(req);
    assert early[0] == req.intentName && early[1] == StripIntentName(req.intentName);
    if TruthyString(req.requestType) {
      assert early[2] == Some(StripRequestType(req.requestType.value));
    }
  }

  /** Resolution throws exactly when neither an intent name nor a request type
      is present and `camelToKebab(undefined)` is not a registered action. */
  lemma ResolveThrowsIff<H>(actions: ActionMap<H>, kebab: Kebab, req: Request)
    ensures Resolve(actions, kebab, req) == NameUndefined
      <==> req.intentName.None? && !TruthyString(req.requestType) && Lookup(actions, kebab(None)).None?
  {
    var early := EarlyNames(req);
    assert early[0] == req.intentName && early[1] == StripIntentName(req.intentName);
  }

  /** After the early names miss, a hit is a truncation of the stripped request type
      when a request type is present, and of the stripped intent name otherwise. */
  lemma ResolveTruncatesBase<H>(actions: ActionMap<H>, kebab: Kebab, req: Request)
    requires AllMiss(actions, kebab, EarlyNames(req))
    ensures Resolve(actions, kebab, req).Found? ==>
      var base := if TruthyString(req.requestType) then Some(StripRequestType(req.requestType.value))
                  else StripIntentName(req.intentName);
      && base.Some?
      && (exists i :: 0 <= i < |Truncations(base.value)|
            && Resolve(actions, kebab, req).name == Some(Truncations(base.value)[i]))
  {
    var r := Resolve(actions, kebab, req);
    if r.Found? {
      var s := TruncationBase(req).value;
      var i := HitIndex(actions, kebab, Lift(Truncations(s)));
      assert r.name == Some(Truncations(s)[i]);
    }
  }

  /** The names `IntentNameNotTruncatedWithRequestType` relies on: none is rewritten. */
  lemma ExampleNamesUnstripped()
    ensures StripAmazonIntent("Foo_Bar") == "Foo_Bar"
    ensures StripRequestType("IntentRequest") == "IntentRequest"
  {
    assert "IntentRequest"[..|AudioPlayerPrefix|][0] != AudioPlayerPrefix[0];
  }

  /** `Foo_Bar` truncates to `Foo` alone. */
  lemma ExampleTruncationsOne()
    ensures Truncations("Foo_Bar") == ["Foo"]
  {
    var parts := ["Foo", "Bar"];
    SplitSepFree("Bar");
    SplitCons("Foo", "Bar");
    assert "Foo_Bar" == "Foo" + [Sep] + "Bar";
    assert Split("Foo_Bar") == parts;
    assert parts[..1] == ["Foo"];
    assert Join(["Foo"]) == "Foo";
  }

  /** The registered actions of the example: only `Foo`. */
  lemma ExampleLookups()
    ensures Lookup([("Foo", 1)], "Foo_Bar").None?
    ensures Lookup([("Foo", 1)], "IntentRequest").None?
    ensures Lookup([("Foo", 1)], "Foo") == Some(1)
  {
    assert "Foo_Bar" != "Foo" by { assert |"Foo_Bar"| != |"Foo"|; }
    assert "IntentRequest" != "Foo" by { assert |"IntentRequest"| != |"Foo"|; }
  }

  /** With a request type present, the early names all missing and a request
      type without `_`, resolution finds nothing: the intent name is never
      truncated, however many `_`-segments it has. */
  lemma RequestTypeStopsTruncation<H>(actions: ActionMap<H>, kebab: Kebab, req: Request)
    requires TruthyString(req.requestType)
    requires AllMiss(actions, kebab, EarlyNames(req))
    requires Sep !in StripRequestType(req.requestType.value)
    ensures Resolve(actions, kebab, req) == NoMatch
  {
    var rt := StripRequestType(req.requestType.value);
    SplitSepFree(rt);
    ResolveAfterEarly(actions, kebab, req);
    assert Lift(Truncations(rt)) == [];
  }

  /** Every Alexa request carries a type, so `Foo_Bar` sent as an
      `IntentRequest` does not reach the action `Foo`. */
  lemma IntentNameNotTruncatedWithRequestType()
    ensures Resolve([("Foo", 1)], (n: Option<string>) => if n.Some? then n.value else "",
                    Request(Some("Foo_Bar"), Some("IntentRequest"))) == NoMatch
  {
    var actions, kebab := [("Foo", 1)], (n: Option<string>) => if n.Some? then n.value else "";
    var req := Request(Some("Foo_Bar"), Some("IntentRequest"));
    ExampleNamesUnstripped();
    ExampleLookups();
    assert EarlyNames(req) == [Some("Foo_Bar"), Some("Foo_Bar"), Some("IntentRequest")];
    assert AllMiss(actions, kebab, EarlyNames(req)) by {
      var e := EarlyNames(req);
      assert kebab(e[0]) == "Foo_Bar" && kebab(e[1]) == "Foo_Bar" && kebab(e[2]) == "IntentRequest";
      forall j | 0 <= j < |e| ensures Lookup(actions, kebab(e[j])).None? {
        assert j == 0 || j == 1 || j == 2;
      }
    }
    assert Sep !in "IntentRequest";
    RequestTypeStopsTruncation(actions, kebab, req);
  }

  /** Without a request type, the same intent name is truncated and reaches `Foo`. */
  lemma IntentNameTruncatedWithoutRequestType()
    ensures Resolve([("Foo", 1)], (n: Option<string>) => if n.Some? then n.value else "",
                    Request(Some("Foo_Bar"), None)) == Found(1, Some("Foo"))
  {
    var actions, kebab := [("Foo", 1)], (n: Option<string>) => if n.Some? then n.value else "";
    var req := Request(Some("Foo_Bar"), None);
    ExampleNamesUnstripped();
    ExampleTruncationsOne();
    ExampleLookups();
    assert EarlyNames(req) == [Some("Foo_Bar"), Some("Foo_Bar")];
    assert AllMiss(actions, kebab, EarlyNames(req)) by {
      var e := EarlyNames(req);
      assert kebab(e[0]) == "Foo_Bar" && kebab(e[1]) == "Foo_Bar";
      forall j | 0 <= j < |e| ensures Lookup(actions, kebab(e[j])).None? {
        assert j == 0 || j == 1;
      }
    }
    ResolveAfterEarly(actions, kebab, req);
    assert TruncationBase(req) == Some("Foo_Bar");
    assert Lift(["Foo"]) == [Some("Foo")];
    FirstHitAt(actions, kebab, [Some("Foo")], 0);
  }

  /** The `i`-th truncation: a prefix of `s` made of its first `|Split(s)|-1-i`
      segments, ending right before a `_`. */
  lemma {:induction false} TruncationAt(s: string, i: nat)
    requires i < |Split(s)| - 1
    ensures |Truncations(s)[i]| < |s|
    ensures Truncations(s)[i] == s[..|Truncations(s)[i]|]
    ensures s[|Truncations(s)[i]|] == Sep
    ensures Split(Truncations(s)[i]) == Split(s)[..|Split(s)| - 1 - i]
  {
    var parts := Split(s);
    var k := |parts| - 1 - i;
    var ti := Join(parts[..k]);
    assert Truncations(s)[i] == ti;
    JoinSplit(s);
    JoinSplitAt(parts, k);
    assert s == ti + [Sep] + Join(parts[k..]);
    assert SepFree(parts[..k]) by {
      assert forall m :: 0 <= m < k ==> parts[..k][m] == parts[m];
    }
    SplitJoin(parts[..k]);
  }

  /** Each truncation is shorter than the one before it. */
  lemma {:induction false} TruncationShrinks(s: string, i: nat)
    requires 0 < i < |Split(s)| - 1
    ensures |Truncations(s)[i]| < |Truncations(s)[i - 1]|
  {
    var parts := Split(s);
    var k := |parts| - 1 - i;
    assert Truncations(s)[i - 1] == Join(parts[..k + 1]);
    assert Truncations(s)[i] == Join(parts[..k]);
    JoinSplitAt(parts[..k + 1], k);
    assert parts[..k + 1][..k] == parts[..k];
  }

  /** The truncation loop makes one lookup per `_` in the name (k segments give
      k-1 lookups); each name looked up is a strictly shorter prefix made of whole
      segments, ending right before a `_`. */
  lemma {:induction false} TruncationsShape(s: string)
    ensures |Truncations(s)| == Count(s) == |Split(s)| - 1
    ensures forall i :: 0 <= i < |Truncations(s)| ==>
      && |Truncations(s)[i]| < |s|
      && Truncations(s)[i] == s[..|Truncations(s)[i]|]
      && s[|Truncations(s)[i]|] == Sep
      && Split(Truncations(s)[i]) == Split(s)[..|Split(s)| - 1 - i]
    ensures forall i :: 0 < i < |Truncations(s)| ==> |Truncations(s)[i]| < |Truncations(s)[i - 1]|
  {
    forall i | 0 <= i < |Truncations(s)|
      ensures |Truncations(s)[i]| < |s|
      ensures Truncations(s)[i] == s[..|Truncations(s)[i]|]
      ensures s[|Truncations(s)[i]|] == Sep
      ensures Split(Truncations(s)[i]) == Split(s)[..|Split(s)| - 1 - i]
    {
      TruncationAt(s, i);
    }
    forall i | 0 < i < |Truncations(s)|
      ensures |Truncations(s)[i]| < |Truncations(s)[i - 1]|
    {
      TruncationShrinks(s, i);
    }
  }

  /** Resolution looks up at most three early names, then one name per `_` in
      the truncation base: a base of k segments costs at most k-1 extra lookups. */
  lemma AttemptsCount(req: Request)
    ensures |EarlyNames(req)| == if TruthyString(req.requestType) then 3 else 2
    ensures |Attempts(req)| == |EarlyNames(req)|
      + match TruncationBase(req) case None => 0 case Some(s) => |Split(s)| - 1
  {
    if TruncationBase(req).Some? {
      TruncationsShape(TruncationBase(req).value);
    }
  }

  /** The first segment of a name is empty exactly when the name starts with `_`. */
  lemma FirstSegmentEmpty(s: string)
    ensures Split(s)[0] == "" <==> |s| == 0 || s[0] == Sep
  {
  }

  /** The truncation loop looks up the empty name exactly when the name
      starts with `_` (so its first segment is empty). */
  lemma TruncationsEmptyIff(s: string)
    ensures "" in Truncations(s) <==> |s| > 0 && s[0] == Sep
  {
    var parts := Split(s);
    var t := Truncations(s);
    FirstSegmentEmpty(s);
    if "" in t {
      var i :| 0 <= i < |t| && t[i] == "";
      var k := |parts| - 1 - i;
      assert t[i] == Join(parts[..k]);
      assert k == 1 && parts[..1] == [parts[0]];
    }
    if |s| > 0 && s[0] == Sep {
      assert |parts| >= 2;
      assert |t| == |parts| - 1;
      assert parts[..1] == [parts[0]];
      assert t[|parts| - 2] == Join(parts[..1]) == "";
    }
  }

  /** A name that starts with `_`, such as `_Foo`, leads to a lookup of `""`. */
  lemma LeadingUnderscoreLooksUpEmpty()
    ensures Truncations("_Foo") == [""]
  {
    assert Split("_Foo") == ["", "Foo"] by {
      assert "_Foo"[1..] == "Foo";
      SplitSepFree("Foo");
    }
    var parts := Split("_Foo");
    assert parts[..1] == [""];
    assert Join(parts[..1]) == "";
    assert |Truncations("_Foo")| == 1;
    assert Truncations("_Foo")[0] == Join(parts[..1]);
  }

  // ---------------------------------------------------------------------
  // The exported builder
  // ---------------------------------------------------------------------

  /** One element of the exported array. */
  datatype Entry<H> =
    | ActionEntry(intent: string, handlers: H)  // `{intent, canHandle, handle}`
    | CatchAll                                   // `{intent: 'any', canHandle: () => true, handler}`
  {
    /** `canHandle(handlerInput)`. */
    predicate CanHandle(req: Request) {
      match this
      case CatchAll => true
      case ActionEntry(intent, _) => IntentCanHandle(intent, req)
    }
  }

  /** An action entry's `canHandle`: compare the stripped intent name when there
      is one, else the stripped request type when there is one, else refuse.
      An entry only accepts a request whose stripped intent name or stripped
      request type, both names resolution tries, is the entry's intent. */
  function IntentCanHandle(intent: string, req: Request): (b: bool)
    ensures b ==> TruthyString(req.intentName) || TruthyString(req.requestType)
    ensures b ==> Some(intent) in EarlyNames(req)[1..]
  {
    if TruthyString(req.intentName) then
      assert EarlyNames(req)[1..][0] == Some(StripAmazonIntent(req.intentName.value));
      StripAmazonIntent(req.intentName.value) == intent
    else if TruthyString(req.requestType) then
      assert EarlyNames(req)[1..][1] == Some(StripRequestType(req.requestType.value));
      StripRequestType(req.requestType.value) == intent
    else false
  }

  /** What the module export returns: `{}` or the array of entries. */
  datatype Handlers<H> = EmptyObject | EntryList(entries: seq<Entry<H>>)

  /** The module export, with `kebabToCamel` (not part of this model) as a parameter. */
  function Build<H>(actions: Option<ActionMap<H>>, kebabToCamel: string -> string): (b: Handlers<H>)
    ensures actions.None? <==> b == EmptyObject
    ensures actions.Some? ==>
      && |b.entries| == |actions.value| + 1
      && (forall i :: 0 <= i < |actions.value| ==>
            b.entries[i] == ActionEntry(kebabToCamel(actions.value[i].0), actions.value[i].1))
      && b.entries[|actions.value|] == CatchAll
  {
    match actions
    case None => EmptyObject
    case Some(a) =>
      EntryList(seq(|a|, i requires 0 <= i < |a| => ActionEntry(kebabToCamel(a[i].0), a[i].1)) + [CatchAll])
  }

  /** With an intent name present, `canHandle` compares its stripped form and
      ignores the request type. */
  lemma CanHandleByIntentName(intent: string, req: Request, otherType: Option<string>)
    requires TruthyString(req.intentName)
    ensures IntentCanHandle(intent, req) <==> StripAmazonIntent(req.intentName.value) == intent
    ensures IntentCanHandle(intent, req) == IntentCanHandle(intent, req.(requestType := otherType))
  {
  }

  /** Without an intent name, `canHandle` compares the stripped request type,
      and refuses when there is none. */
  lemma CanHandleByRequestType(intent: string, req: Request)
    requires !TruthyString(req.intentName)
    ensures IntentCanHandle(intent, req)
      <==> TruthyString(req.requestType) && StripRequestType(req.requestType.value) == intent
  {
  }

  /** Entries with different intents never both accept a request. */
  lemma CanHandleExclusive(i1: string, i2: string, req: Request)
    requires IntentCanHandle(i1, req) && IntentCanHandle(i2, req)
    ensures i1 == i2
  {
  }

  /** Every request is accepted by some entry of a built list: at the latest by
      the catch-all, which is last and accepts everything. */
  lemma BuiltListAcceptsEverything<H>(actions: ActionMap<H>, kebabToCamel: string -> string, req: Request)
    ensures var b := Build(Some(actions), kebabToCamel);
      b.EntryList? && exists i :: 0 <= i < |b.entries| && b.entries[i].CanHandle(req)
  {
    var b := Build(Some(actions), kebabToCamel);
    assert b.entries[|actions|].CanHandle(req);
  }

  // ---------------------------------------------------------------------
  // One turn: fetch attributes, run the selected handler, store attributes
  // ---------------------------------------------------------------------

  type Attributes = map<string, Value>

  /** Outcome of `attributesManager.getPersistentAttributes()`. */
  datatype Fetched = Fetched(attributes: Attributes) | FetchFailed

  /** `fetchAttributes`: a failed fetch is replaced by `{}`. */
  function FetchAttributes(f: Fetched): (a: Attributes)
    ensures f.FetchFailed? ==> a == map[]
    ensures f.Fetched? ==> a == f.attributes
  {
    match f
    case Fetched(a) => a
    case FetchFailed => map[]
  }

  /** What the selected handler does to the turn's persisted attributes:
      its promise resolves with them as it left them, or rejects. */
  datatype Run = Resolved(attributes: Attributes) | Rejected

  datatype Turn = Responded(stored: Attributes) | HandlerRejected | SaveRejected

  /** An entry's `handle`: `run` stands for `fsm.selectHandler(app, handlers)(app)`
      followed by `app.persist.getData()`, `jsonify` for the serialisation and
      `saveOk` for whether `savePersistentAttributes()` resolves. */
  function Handle<H>(handlers: H, f: Fetched, run: (H, Attributes) -> Run,
                     jsonify: Attributes -> Attributes, saveOk: bool): (t: Turn)
    ensures t.Responded? <==> run(handlers, FetchAttributes(f)).Resolved? && saveOk
    ensures t.Responded? ==> t.stored == jsonify(run(handlers, FetchAttributes(f)).attributes)
    ensures run(handlers, FetchAttributes(f)).Rejected? <==> t == HandlerRejected
  {
    match run(handlers, FetchAttributes(f))
    case Rejected => HandlerRejected
    case Resolved(a) => if saveOk then Responded(jsonify(a)) else SaveRejected
  }

  /** A failed fetch behaves exactly like a fetch of `{}`. */
  lemma FetchFailureIsEmpty<H>(handlers: H, run: (H, Attributes) -> Run,
                               jsonify: Attributes -> Attributes, saveOk: bool)
    ensures Handle(handlers, FetchFailed, run, jsonify, saveOk)
         == Handle(handlers, Fetched(map[]), run, jsonify, saveOk)
  {
  }

  datatype CatchAllTurn = Unresolved | Threw | Handled(turn: Turn)

  /** The catch-all's `handler`: resolve by `findHandlersByInput`; no match
      resolves to nothing without fetching or storing. */
  function CatchAllHandle<H>(actions: ActionMap<H>, kebab: Kebab, req: Request, f: Fetched,
                             run: (H, Attributes) -> Run, jsonify: Attributes -> Attributes,
                             saveOk: bool): (t: CatchAllTurn)
    ensures t == Unresolved <==> Resolve(actions, kebab, req) == NoMatch
    ensures t == Threw <==> Resolve(actions, kebab, req) == NameUndefined
    ensures t.Handled? ==> (Resolve(actions, kebab, req).Found?
      && t.turn == Handle(Resolve(actions, kebab, req).handlers, f, run, jsonify, saveOk))
  {
    match Resolve(actions, kebab, req)
    case NoMatch => Unresolved
    case NameUndefined => Threw
    case Found(handlers, _) => Handled(Handle(handlers, f, run, jsonify, saveOk))
  }
}
