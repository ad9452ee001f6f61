/** `DefaultMultiCategoryIdentifierGenerator`: a map from trimmed category names
    to identifier producers, and the two lookups that delegate to the producer
    registered for a category. The producer type is a parameter; what a producer
    does when called is a function passed to the lookup. */
module Registry {
  import opened Wrappers
  import opened JavaText
  import IdGenerator

  datatype Registry<P> = Registry(producers: map<string, P>)

  function Empty<P>(): (r: Registry<P>)
    ensures r.producers == map[]
  {
    Registry(map[])
  }

  /** `normalizeCategory`: null stays null, any other name is trimmed. */
  function NormalizeCategory(category: Option<string>): (r: Option<string>)
    ensures r.None? <==> category.None?
    ensures category.Some? ==> r.value == Trim(category.value)
  {
    if category.None? then None else Some(Trim(category.value))
  }

  /** `register`: a producer is stored under the trimmed name; a null or blank
      name, or a null producer, leaves the registry as it was (the source logs a
      warning). A later registration under the same trimmed name replaces the
      earlier one. */
  function Register<P>(reg: Registry<P>, categoryName: Option<string>, producer: Option<P>): (r: Registry<P>)
    ensures IsNullOrBlank(categoryName) || producer.None? ==> r == reg
    ensures !IsNullOrBlank(categoryName) && producer.Some? ==>
      && r.producers.Keys == reg.producers.Keys + {Trim(categoryName.value)}
      && r.producers[Trim(categoryName.value)] == producer.value
      && forall k :: k in reg.producers && k != Trim(categoryName.value) ==> r.producers[k] == reg.producers[k]
  {
    var category := NormalizeCategory(categoryName);
    if IsNullOrEmpty(category) || producer.None? then reg
    else Registry(reg.producers[category.value := producer.value])
  }

  const NullCategoryMessage: string := "Cannot generate identifier for category=null"

  function NotRegisteredMessage(category: string): string {
    "No identifier generator registered for category '" + category + "'"
  }

  /** `getIdProducer`: the producer registered under the trimmed name; a null
      name and an unknown name are both identifier-generation failures. */
  function GetIdProducer<P>(reg: Registry<P>, categoryName: Option<string>): (r: Result<P>)
    ensures r.Ok? <==> categoryName.Some? && Trim(categoryName.value) in reg.producers
    ensures r.Ok? ==> r.value == reg.producers[Trim(categoryName.value)]
    ensures categoryName.None? ==> r == Err(IdentifierGeneration(NullCategoryMessage, None))
    ensures categoryName.Some? && Trim(categoryName.value) !in reg.producers ==>
      r == Err(IdentifierGeneration(NotRegisteredMessage(Trim(categoryName.value)), None))
  {
    var category := NormalizeCategory(categoryName);
    if category.None? then Err(IdentifierGeneration(NullCategoryMessage, None))
    else if category.value !in reg.producers then
      Err(IdentifierGeneration(NotRegisteredMessage(category.value), None))
    else Ok(reg.producers[category.value])
  }

  function UnablePrefix(action: string): string {
    "Unable to generate " + action + " identifier for category '"
  }

  function UnableMessage(action: string, category: Option<string>): string {
    UnablePrefix(action) + Shown(category) + "'"
  }

  /** What the caller sees of a producer's result: a result or an
      identifier-generation failure passes unchanged; any other failure is
      wrapped, with the category as given (untrimmed) in the message. */
  function Wrap<T>(res: Result<T>, action: string, category: Option<string>): Result<T> {
    if res.Ok? || res.failure.IdentifierGeneration? then res
    else Err(IdentifierGeneration(UnableMessage(action, category), Some(res.failure)))
  }

  /** The shared body of `newIdentifier` and `nextIdentifier`: look the producer
      up and call it. The call yields the producer's new state, which replaces
      the old one under the key that was looked up (and only there). A failed
      lookup is passed on and changes nothing. */
  function Delegate<P, T>(reg: Registry<P>, category: Option<string>, call: P -> (P, Result<T>), action: string)
    : (r: (Registry<P>, Result<T>))
    ensures r.1.Err? ==> r.1.failure.IdentifierGeneration?
    ensures r.0.producers.Keys == reg.producers.Keys
    ensures GetIdProducer(reg, category).Err? ==> r == (reg, Err(GetIdProducer(reg, category).failure))
    ensures GetIdProducer(reg, category).Ok? ==>
      var key := Trim(category.value);
      var out := call(reg.producers[key]);
      && r.0.producers == reg.producers[key := out.0]
      && (out.1.Ok? ==> r.1 == out.1)
      && (out.1.Err? && out.1.failure.IdentifierGeneration? ==> r.1 == out.1)
      && (out.1.Err? && !out.1.failure.IdentifierGeneration? ==>
            r.1 == Err(IdentifierGeneration(UnableMessage(action, category), Some(out.1.failure))))
  {
    var producer := GetIdProducer(reg, category);
    if producer.Err? then (reg, Err(producer.failure))
    else
      var key := NormalizeCategory(category).value;
      var out := call(producer.value);
      (Registry(reg.producers[key := out.0]), Wrap(out.1, action, category))
  }

  /** `newIdentifier(category)`: the formatted identifier of the category's producer. */
  function NewIdentifier<P>(reg: Registry<P>, category: Option<string>, newId: P -> (P, Result<string>))
    : (r: (Registry<P>, Result<string>))
    ensures r.1.Err? ==> r.1.failure.IdentifierGeneration?
    ensures r.1.Ok? <==> category.Some? && Trim(category.value) in reg.producers
                         && newId(reg.producers[Trim(category.value)]).1.Ok?
    ensures r.0.producers.Keys == reg.producers.Keys
  {
    Delegate(reg, category, newId, "new")
  }

  /** `nextIdentifier(category)`: the numeric identifier of the category's producer. */
  function NextIdentifier<P>(reg: Registry<P>, category: Option<string>, nextId: P -> (P, Result<int>))
    : (r: (Registry<P>, Result<int>))
    ensures r.1.Err? ==> r.1.failure.IdentifierGeneration?
    ensures r.1.Ok? <==> category.Some? && Trim(category.value) in reg.producers
                         && nextId(reg.producers[Trim(category.value)]).1.Ok?
    ensures r.0.producers.Keys == reg.producers.Keys
  {
    Delegate(reg, category, nextId, "next")
  }

  /** `k` successive registry calls for one category. */
  function Calls<P, T>(reg: Registry<P>, category: Option<string>, call: P -> (P, Result<T>), action: string, k: nat)
    : (r: (Registry<P>, seq<Result<T>>))
    ensures r.0.producers.Keys == reg.producers.Keys
    ensures |r.1| == k
    decreases k
  {
    if k == 0 then (reg, [])
    else
      var d := Delegate(reg, category, call, action);
      var rest := Calls(d.0, category, call, action, k - 1);
      (rest.0, [d.1] + rest.1)
  }

  /** `k` successive calls of one producer, without the registry. */
  function ProducerCalls<P, T>(p: P, call: P -> (P, Result<T>), k: nat): (r: (P, seq<Result<T>>))
    decreases k
  {
    if k == 0 then (p, [])
    else
      var out := call(p);
      var rest := ProducerCalls(out.0, call, k - 1);
      (rest.0, [out.1] + rest.1)
  }

  /** The registry is transparent: `k` calls through it for a registered category
      give what `k` direct calls of its producer give (foreign failures wrapped),
      and leave that producer in the state the direct calls leave it in. */
  lemma {:induction false} CallsFollowProducer<P, T>(reg: Registry<P>, category: string, call: P -> (P, Result<T>),
                                                    action: string, k: nat)
    requires Trim(category) in reg.producers
    ensures var r := Calls(reg, Some(category), call, action, k);
      var d := ProducerCalls(reg.producers[Trim(category)], call, k);
      && |r.1| == k && |d.1| == k
      && r.0.producers == reg.producers[Trim(category) := d.0]
      && forall i :: 0 <= i < k ==> r.1[i] == Wrap(d.1[i], action, Some(category))
    decreases k
  {
    if k > 0 {
      var key := Trim(category);
      var out := call(reg.producers[key]);
      var reg1 := Registry(reg.producers[key := out.0]);
      assert Delegate(reg, Some(category), call, action) == (reg1, Wrap(out.1, action, Some(category)));
      CallsFollowProducer(reg1, category, call, action, k - 1);
      assert reg1.producers[key := ProducerCalls(out.0, call, k - 1).0] == reg.producers[key := ProducerCalls(out.0, call, k - 1).0];
    }
  }

  /** An in-memory generator as the producer behind `nextIdentifier`. */
  function GeneratorNext(g: IdGenerator.Generator): (IdGenerator.Generator, Result<int>) {
    var out := IdGenerator.NextIdentifier(g);
    (out.0, Ok(out.1))
  }

  /** The producer state after `i` calls. */
  function After<P, T>(p: P, call: P -> (P, Result<T>), i: nat): P
    decreases i
  {
    if i == 0 then p else After(call(p).0, call, i - 1)
  }

  /** Call `i` of a run sees the state the first `i` calls left behind. */
  lemma {:induction false} ProducerCallsAfter<P, T>(p: P, call: P -> (P, Result<T>), k: nat)
    ensures |ProducerCalls(p, call, k).1| == k
    ensures forall i :: 0 <= i < k ==> ProducerCalls(p, call, k).1[i] == call(After(p, call, i)).1
    decreases k
  {
    if k > 0 {
      var q := call(p).0;
      ProducerCallsAfter(q, call, k - 1);
      var all := ProducerCalls(p, call, k).1;
      assert all == [call(p).1] + ProducerCalls(q, call, k - 1).1;
      forall i | 0 <= i < k
        ensures all[i] == call(After(p, call, i)).1
      {
        if i > 0 {
          assert all[i] == ProducerCalls(q, call, k - 1).1[i - 1];
        }
      }
    }
  }

  /** A generator producer advances by one per call. */
  lemma {:induction false} GeneratorAfter(g: IdGenerator.Generator, i: nat)
    ensures After(g, GeneratorNext, i) == g.(nextId := g.nextId + i)
    decreases i
  {
    if i > 0 {
      GeneratorAfter(GeneratorNext(g).0, i - 1);
    }
  }

  /** Successive `nextIdentifier` calls for a category registered with a
      generator give the generator's start value, then the next, and so on. */
  lemma RegisteredGeneratorCountsOn(reg: Registry<IdGenerator.Generator>, category: string, k: nat)
    requires Trim(category) in reg.producers
    ensures |Calls(reg, Some(category), GeneratorNext, "next", k).1| == k
    ensures forall i :: 0 <= i < k ==>
      Calls(reg, Some(category), GeneratorNext, "next", k).1[i] == Ok(reg.producers[Trim(category)].nextId + i)
    ensures Calls(reg, Some(category), GeneratorNext, "next", k).0.producers[Trim(category)].nextId
         == reg.producers[Trim(category)].nextId + k
  {
    var g := reg.producers[Trim(category)];
    CallsFollowProducer(reg, category, GeneratorNext, "next", k);
    ProducerCallsAfter(g, GeneratorNext, k);
    forall i | 0 <= i < k
      ensures Calls(reg, Some(category), GeneratorNext, "next", k).1[i] == Ok(g.nextId + i)
    {
      GeneratorAfter(g, i);
    }
    ProducerCallsEnd(g, k);
  }

  /** The state a run of `k` generator calls leaves behind. */
  lemma {:induction false} ProducerCallsEnd(g: IdGenerator.Generator, k: nat)
    ensures ProducerCalls(g, GeneratorNext, k).0 == g.(nextId := g.nextId + k)
    decreases k
  {
    if k > 0 {
      ProducerCallsEnd(GeneratorNext(g).0, k - 1);
    }
  }

  // ---------------------------------------------------------------------------
  // Properties relating registration and lookup.
  // ---------------------------------------------------------------------------

  /** After registering under a name, every spelling with the same trim finds
      that producer. */
  lemma RegisterThenLookup<P>(reg: Registry<P>, name: string, p: P, query: string)
    requires !IsNullOrBlank(Some(name))
    requires Trim(query) == Trim(name)
    ensures GetIdProducer(Register(reg, Some(name), Some(p)), Some(query)) == Ok(p)
  {
  }

  /** Registering under one name changes the lookup of no other name. */
  lemma RegisterLeavesOtherLookups<P>(reg: Registry<P>, name: Option<string>, p: Option<P>, query: Option<string>)
    requires query.Some? && name.Some? ==> Trim(query.value) != Trim(name.value)
    ensures GetIdProducer(Register(reg, name, p), query) == GetIdProducer(reg, query)
  {
  }

  /** The registry keeps only trimmed, non-empty names. */
  predicate KeysTrimmed<P>(reg: Registry<P>) {
    forall k :: k in reg.producers ==> |k| > 0 && Trim(k) == k
  }

  lemma RegisterKeepsKeysTrimmed<P>(reg: Registry<P>, name: Option<string>, p: Option<P>)
    requires KeysTrimmed(reg)
    ensures KeysTrimmed(Register(reg, name, p))
  {
    if !IsNullOrBlank(name) && p.Some? {
      TrimIdempotent(name.value);
    }
  }

  /** A failure of the producer other than an identifier-generation failure
      reaches the caller wrapped, with the original failure as its cause. */
  lemma ForeignFailureIsWrapped<P>(reg: Registry<P>, category: string, nextId: P -> (P, Result<int>), e: Failure)
    requires Trim(category) in reg.producers
    requires nextId(reg.producers[Trim(category)]).1 == Err(e)
    requires !e.IdentifierGeneration?
    ensures NextIdentifier(reg, Some(category), nextId).1
         == Err(IdentifierGeneration("Unable to generate " + "next" + " identifier for category '" + category + "'", Some(e)))
  {
  }

  /** The lookup is by exact trimmed name: "alpha" does not find the producer
      registered as "Alpha", even though the builder treats them as the same category. */
  lemma LookupIsCaseSensitive<P>(p: P)
    ensures var reg := Register(Empty(), Some("Alpha"), Some(p));
      && GetIdProducer(reg, Some(" Alpha ")) == Ok(p)
      && GetIdProducer(reg, Some("alpha"))
         == Err(IdentifierGeneration("No identifier generator registered for category 'alpha'", None))
  {
    assert Trim("Alpha") == "Alpha";
    assert Trim(" Alpha ") == "Alpha" by { assert " Alpha "[1..] == "Alpha "; assert "Alpha "[..5] == "Alpha"; }
    assert Trim("alpha") == "alpha";
    assert "alpha" != "Alpha" by { assert "alpha"[0] != "Alpha"[0]; }
    assert NotRegisteredMessage("alpha") == "No identifier generator registered for category 'alpha'";
  }

  /** A null category is refused before any producer is consulted. */
  lemma NullCategoryRefused<P>(reg: Registry<P>, newId: P -> (P, Result<string>))
    ensures NewIdentifier(reg, None, newId) == (reg, Err(IdentifierGeneration(NullCategoryMessage, None)))
  {
  }
}
