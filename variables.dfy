/**
 * The class VoiceAttackVariables: each set is classified by the value's type
 * code, recorded in the local list `_setVariables` (newest first, one entry
 * per tagged key) and forwarded to exactly one of the host's typed setters;
 * each get goes straight to one of the host's typed getters. The host proxy
 * is known only through the calls made to it, kept in a ghost log.
 */
module Variables {
  import opened Wrappers
  import opened Text
  import opened Numbers
  import opened Kinds
  import opened RecencyCache

  /** A call into the host proxy: one of its six setters or one of its six getters. */
  datatype HostCall =
    | SetCall(name: string, value: HostValue)
    | GetCall(kind: VariableKind, name: string)

  /** What the class keeps true of `_setVariables`: one entry per key, every key a tagged key. */
  predicate CacheInvariant(c: seq<Entry>) {
    UniqueKeys(c) && forall i :: 0 <= i < |c| ==> IsTaggedKey(c[i].0)
  }

  /** Recording a set under a tagged key keeps the invariant. */
  lemma UpsertKeepsInvariant(c: seq<Entry>, kind: VariableKind, name: string, text: string)
    requires CacheInvariant(c)
    ensures CacheInvariant(Upsert(c, TaggedKey(kind, name), text))
  {
    var key := TaggedKey(kind, name);
    var u := Upsert(c, key, text);
    UpsertKeepsKeysUnique(c, key, text);
    ParseTaggedKeyOfTaggedKey(kind, name);
    forall i | 0 <= i < |u| ensures IsTaggedKey(u[i].0) {
      if i > 0 {
        assert u[i] in RemoveKey(c, key);
      }
    }
  }

  /** The keys of a cache that keeps the invariant all have a colon. */
  lemma InvariantHasColons(c: seq<Entry>)
    requires CacheInvariant(c)
    ensures AllHaveColon(c)
  {
    forall i | 0 <= i < |c| ensures ':' in c[i].0 {
      TaggedKeyHasColon(c[i].0);
    }
  }

  /** Clearing keeps the invariant. */
  lemma ClearedKeepsInvariant(c: seq<Entry>, prefix: string)
    requires CacheInvariant(c)
    ensures AllHaveColon(c) && CacheInvariant(Cleared(c, prefix))
  {
    InvariantHasColons(c);
    var r := Cleared(c, prefix);
    ClearedKeepsKeysUnique(c, prefix);
    SubsequenceMembers(r, c);
    forall i | 0 <= i < |r| ensures IsTaggedKey(r[i].0) {
      assert r[i] in c;
    }
  }

  /**
   * The same name set as two different kinds keeps both entries: each
   * tagged key gives back its own text.
   */
  lemma NoCollisionAcrossKinds(c: seq<Entry>, kind1: VariableKind, kind2: VariableKind,
                               name: string, text1: string, text2: string)
    requires kind1 != kind2
    ensures var both := Upsert(Upsert(c, TaggedKey(kind1, name), text1), TaggedKey(kind2, name), text2);
            && Lookup(both, TaggedKey(kind1, name)) == Some(text1)
            && Lookup(both, TaggedKey(kind2, name)) == Some(text2)
  {
    var key1, key2 := TaggedKey(kind1, name), TaggedKey(kind2, name);
    TaggedKeyInjective(kind1, name, kind2, name);
    LookupUpsert(Upsert(c, key1, text1), key2, text2, key1);
    LookupUpsert(c, key1, text1, key1);
    LookupUpsert(Upsert(c, key1, text1), key2, text2, key2);
  }

  /** List.FindIndex: the first position whose entry is filed under `key`, or -1. */
  method FindIndex(entries: seq<Entry>, key: string) returns (index: int)
    ensures -1 <= index < |entries|
    ensures index == -1 <==> key !in Keys(entries)
    ensures 0 <= index ==> entries[index].0 == key && key !in Keys(entries[..index])
  {
    index := 0;
    while index < |entries|
      invariant 0 <= index <= |entries|
      invariant forall j :: 0 <= j < index ==> entries[j].0 != key
    {
      if entries[index].0 == key {
        assert forall j :: 0 <= j < index ==> Keys(entries[..index])[j] == entries[j].0;
        return;
      }
      index := index + 1;
    }
    index := -1;
  }

  class VoiceAttackVariables {
    /** `_setVariables`: the sets made through this store, newest first. */
    var setVariables: seq<Entry>
    /** The calls made to the host proxy, oldest first. */
    ghost var hostCalls: seq<HostCall>

    ghost predicate Valid()
      reads this
    {
      CacheInvariant(setVariables)
    }

    constructor ()
      ensures Valid()
      ensures setVariables == [] && hostCalls == []
    {
      setVariables := [];
      hostCalls := [];
    }

    /** The read-only view `SetVariables`: newest first, one entry per tagged key. */
    function SetVariables(): (view: seq<Entry>)
      reads this
      requires Valid()
      ensures UniqueKeys(view)
      ensures forall i :: 0 <= i < |view| ==> IsTaggedKey(view[i].0)
    {
      setVariables
    }

    /** `ClearStartingWith(prefix)`: a local pruning; the host is not called. */
    method ClearStartingWith(prefix: string)
      requires Valid()
      modifies this`setVariables
      ensures Valid()
      ensures AllHaveColon(old(setVariables))
      ensures setVariables == Cleared(old(setVariables), prefix)
      ensures hostCalls == old(hostCalls)
    {
      ClearedKeepsInvariant(setVariables, prefix);
      setVariables := Cleared(setVariables, prefix);
    }

    /**
     * The private `Set(name, value, code)` behind `Set<T>`: at most one
     * entry recorded and one host setter called, or, when a parse throws,
     * nothing changed and the exception returned.
     */
    method Set(name: string, value: Value, code: TypeCode, culture: Culture) returns (error: Option<ParseError>)
      requires Valid() && Fits(code, value)
      modifies this
      ensures Valid()
      ensures match Classify(code, value, culture)
        case Write(hv) =>
          && error == None
          && setVariables == Upsert(old(setVariables), TaggedKey(KindOf(hv), name), Render(hv, culture))
          && hostCalls == old(hostCalls) + [SetCall(name, hv)]
        case Raise(e) =>
          error == Some(e) && setVariables == old(setVariables) && hostCalls == old(hostCalls)
        case Ignore =>
          error == None && setVariables == old(setVariables) && hostCalls == old(hostCalls)
    {
      var outcome := Classify(code, value, culture);
      match outcome
      case Write(hv) =>
        Forward(name, hv, culture);
        error := None;
      case Raise(e) =>
        error := Some(e);
      case Ignore =>
        error := None;
    }

    /** The setter call the `Set` switch makes once it holds a value of the host's type. */
    method Forward(name: string, hv: HostValue, culture: Culture)
      requires Valid() && InRange(hv)
      modifies this
      ensures Valid()
      ensures setVariables == Upsert(old(setVariables), TaggedKey(KindOf(hv), name), Render(hv, culture))
      ensures hostCalls == old(hostCalls) + [SetCall(name, hv)]
    {
      match hv
      case SmallIntValue(s) => SetShort(name, s);
      case IntValue(i) => SetInt(name, i);
      case TextValue(t) => SetText(name, t);
      case DecimalValue(d) => SetDecimal(name, d);
      case BooleanValue(b) => SetBoolean(name, b);
      case DateValue(m) => SetDate(name, m, culture);
    }

    /**
     * `Get<T>(name)`: the host getter the type code selects is called, or
     * none for a code the switch does not name (the default value is then
     * returned). The cache is neither read nor changed. The getter's answer
     * and its conversion to `T` belong to the host and are not modelled:
     * the result says which getter answered.
     */
    method Get(name: string, code: TypeCode) returns (getter: Option<VariableKind>)
      modifies this`hostCalls
      ensures getter == GetRoute(code)
      ensures getter.None? <==> Unhandled(code)
      ensures setVariables == old(setVariables)
      ensures hostCalls == old(hostCalls) + if getter.Some? then [GetCall(getter.value, name)] else []
    {
      getter := GetRoute(code);
      if getter.Some? {
        hostCalls := hostCalls + [GetCall(getter.value, name)];
      }
    }

    method SetShort(name: string, value: int)
      requires Valid() && InInt16(value)
      modifies this
      ensures Valid()
      ensures setVariables == Upsert(old(setVariables), TaggedKey(Short, name), IntToString(value))
      ensures hostCalls == old(hostCalls) + [SetCall(name, SmallIntValue(value))]
    {
      var variable := TaggedKey(Short, name);
      SetVariable(variable, IntToString(value));
      UpsertKeepsInvariant(old(setVariables), Short, name, IntToString(value));
      hostCalls := hostCalls + [SetCall(name, SmallIntValue(value))];
    }

    method SetInt(name: string, value: int)
      requires Valid() && InInt32(value)
      modifies this
      ensures Valid()
      ensures setVariables == Upsert(old(setVariables), TaggedKey(Int, name), IntToString(value))
      ensures hostCalls == old(hostCalls) + [SetCall(name, IntValue(value))]
    {
      var variable := TaggedKey(Int, name);
      SetVariable(variable, IntToString(value));
      UpsertKeepsInvariant(old(setVariables), Int, name, IntToString(value));
      hostCalls := hostCalls + [SetCall(name, IntValue(value))];
    }

    method SetText(name: string, value: string)
      requires Valid()
      modifies this
      ensures Valid()
      ensures setVariables == Upsert(old(setVariables), TaggedKey(Txt, name), value)
      ensures hostCalls == old(hostCalls) + [SetCall(name, TextValue(value))]
    {
      var variable := TaggedKey(Txt, name);
      SetVariable(variable, value);
      UpsertKeepsInvariant(old(setVariables), Txt, name, value);
      hostCalls := hostCalls + [SetCall(name, TextValue(value))];
    }

    method SetDecimal(name: string, value: Numbers.Decimal)
      requires Valid() && ValidDecimal(value)
      modifies this
      ensures Valid()
      ensures setVariables == Upsert(old(setVariables), TaggedKey(Dec, name), FormatDecimal(value))
      ensures hostCalls == old(hostCalls) + [SetCall(name, DecimalValue(value))]
    {
      var variable := TaggedKey(Dec, name);
      SetVariable(variable, FormatDecimal(value));
      UpsertKeepsInvariant(old(setVariables), Dec, name, FormatDecimal(value));
      hostCalls := hostCalls + [SetCall(name, DecimalValue(value))];
    }

    method SetBoolean(name: string, value: bool)
      requires Valid()
      modifies this
      ensures Valid()
      ensures setVariables == Upsert(old(setVariables), TaggedKey(Bool, name), BoolToString(value))
      ensures hostCalls == old(hostCalls) + [SetCall(name, BooleanValue(value))]
    {
      var variable := TaggedKey(Bool, name);
      SetVariable(variable, BoolToString(value));
      UpsertKeepsInvariant(old(setVariables), Bool, name, BoolToString(value));
      hostCalls := hostCalls + [SetCall(name, BooleanValue(value))];
    }

    method SetDate(name: string, value: Moment, culture: Culture)
      requires Valid()
      modifies this
      ensures Valid()
      ensures setVariables == Upsert(old(setVariables), TaggedKey(Date, name), culture.formatDate(value))
      ensures hostCalls == old(hostCalls) + [SetCall(name, DateValue(value))]
    {
      var variable := TaggedKey(Date, name);
      SetVariable(variable, culture.formatDate(value));
      UpsertKeepsInvariant(old(setVariables), Date, name, culture.formatDate(value));
      hostCalls := hostCalls + [SetCall(name, DateValue(value))];
    }

    /**
     * `SetVariable(key, value)`: find the entry under `key`, remove it if
     * there is one, and insert the new entry at position 0.
     */
    method SetVariable(key: string, value: string)
      requires UniqueKeys(setVariables)
      modifies this`setVariables
      ensures setVariables == Upsert(old(setVariables), key, value)
    {
      var index := FindIndex(setVariables, key);
      if index >= 0 {
        RemoveAtIsRemoveKey(setVariables, index, key);
        setVariables := RemoveAt(setVariables, index);
      }
      setVariables := [(key, value)] + setVariables;
    }
  }
}
