/** The `Translator` object: its three fields, the methods that change them,
    and `Translate`, which sorts its positional arguments into count,
    formatting and context before resolving the text. */
module I18n {
  import opened Common
  import opened Options
  import opened Resolution

  /** A positional argument of `Translate(text, params object[] input)`, by
      the runtime type tests made on it: a boxed `int`, a
      `Dictionary<string, string>`, or anything else (including `null` and a
      position past the end of the array). */
  datatype Arg = IntArg(n: Int32) | DictArg(d: Dict) | OtherArg

  /** What `Translate` hands to `TranslateText`. */
  datatype Call = Call(num: Option<Int32>, formatting: Option<Dict>, context: map<string, string>)

  /** The argument at position `i`, or `OtherArg` past the end. */
  function ArgAt(args: seq<Arg>, i: nat): Arg
  {
    if i < |args| then args[i] else OtherArg
  }

  /** The dictionary at position `i` taken as the formatting, if it is one. */
  function FormattingAt(args: seq<Arg>, i: nat): Option<Dict>
  {
    if ArgAt(args, i).DictArg? then Some(ArgAt(args, i).d) else None
  }

  /** The dictionary at position `i` taken as the context, if it is one;
      otherwise the global context stays. */
  function ContextAt(args: seq<Arg>, i: nat, globalContext: map<string, string>): map<string, string>
  {
    if ArgAt(args, i).DictArg? then ToMap(ArgAt(args, i).d) else globalContext
  }

  /** The argument routing of `Translate`. */
  function RouteArguments(args: seq<Arg>, globalContext: map<string, string>): (c: Call)
    // a count is an int argument in the first or second position
    ensures c.num.Some? ==> ArgAt(args, 0) == IntArg(c.num.value) || ArgAt(args, 1) == IntArg(c.num.value)
    ensures ArgAt(args, 0).IntArg? ==> c.num == Some(ArgAt(args, 0).n)
    // formatting is one of the dictionaries among the first three arguments
    ensures c.formatting.Some? ==> exists i :: 0 <= i < 3 && ArgAt(args, i) == DictArg(c.formatting.value)
    ensures ArgAt(args, 0).DictArg? ==> c.formatting == Some(ArgAt(args, 0).d)
    // the context is the global one unless a dictionary in the second or third position replaces it
    ensures c.context == globalContext || exists i :: 1 <= i < 3 && ArgAt(args, i).DictArg? && c.context == ToMap(ArgAt(args, i).d)
    // a dictionary used as context always follows the formatting position
    ensures c.context != globalContext ==> c.formatting.Some? || ArgAt(args, 0).IntArg? || ArgAt(args, 1).OtherArg?
    // the routing table, one clause per branch on the first argument's type:
    // a dictionary first is the formatting, and a dictionary second the context; there is no count
    ensures ArgAt(args, 0).DictArg? ==>
      c == Call(None, Some(ArgAt(args, 0).d), ContextAt(args, 1, globalContext))
    // an int first is the count, a dictionary second the formatting, a dictionary third the context
    ensures ArgAt(args, 0).IntArg? ==>
      c == Call(Some(ArgAt(args, 0).n), FormattingAt(args, 1), ContextAt(args, 2, globalContext))
    // otherwise an int second is the count and a dictionary third the formatting; the context stays global
    ensures ArgAt(args, 0).OtherArg? && ArgAt(args, 1).IntArg? ==>
      c == Call(Some(ArgAt(args, 1).n), FormattingAt(args, 2), globalContext)
    // otherwise there is no count, a dictionary second is the formatting and a dictionary third the context
    ensures ArgAt(args, 0).OtherArg? && !ArgAt(args, 1).IntArg? ==>
      c == Call(None, FormattingAt(args, 1), ContextAt(args, 2, globalContext))
  {
    var a0, a1, a2 := ArgAt(args, 0), ArgAt(args, 1), ArgAt(args, 2);
    match a0
    case DictArg(f) =>
      Call(None, Some(f), if a1.DictArg? then ToMap(a1.d) else globalContext)
    case IntArg(n) =>
      Call(Some(n), if a1.DictArg? then Some(a1.d) else None,
           if a2.DictArg? then ToMap(a2.d) else globalContext)
    case OtherArg =>
      if a1.IntArg? then Call(Some(a1.n), if a2.DictArg? then Some(a2.d) else None, globalContext)
      else Call(None, if a1.DictArg? then Some(a1.d) else None,
                if a2.DictArg? then ToMap(a2.d) else globalContext)
  }

  /** A positional form of the canonical call (count, formatting, context),
      each of them optional. */
  function EncodeCall(num: Option<Int32>, formatting: Option<Dict>, context: Option<Dict>): (args: seq<Arg>)
    ensures |args| <= 3
  {
    var fmt := if formatting.Some? then DictArg(formatting.value) else OtherArg;
    var ctx := if context.Some? then DictArg(context.value) else OtherArg;
    if num.Some? then [IntArg(num.value), fmt, ctx]
    else if formatting.Some? then [fmt, ctx]
    else [OtherArg, OtherArg, ctx]
  }

  /** Every combination of count, formatting and context can be passed
      positionally, and routing recovers it; an absent context is the global one. */
  lemma RoutingRoundTrip(num: Option<Int32>, formatting: Option<Dict>, context: Option<Dict>, globalContext: map<string, string>)
    ensures RouteArguments(EncodeCall(num, formatting, context), globalContext)
         == Call(num, formatting, if context.Some? then ToMap(context.value) else globalContext)
  {
  }

  /** A count in the second position, after an argument that is neither a
      count nor a dictionary (such as `null`), is routed back too; the context
      then always stays the global one. */
  lemma RoutingCountSecond(n: Int32, formatting: Option<Dict>, context: Option<Dict>, globalContext: map<string, string>)
    ensures var fmt := if formatting.Some? then DictArg(formatting.value) else OtherArg;
      var ctx := if context.Some? then DictArg(context.value) else OtherArg;
      RouteArguments([OtherArg, IntArg(n), fmt, ctx], globalContext) == Call(Some(n), formatting, globalContext)
  {
  }

  /** Only the first three arguments are looked at. */
  lemma RoutingIgnoresExtraArguments(args: seq<Arg>, more: seq<Arg>, globalContext: map<string, string>)
    requires |args| >= 3
    ensures RouteArguments(args + more, globalContext) == RouteArguments(args, globalContext)
  {
    assert forall i :: 0 <= i < 3 ==> ArgAt(args + more, i) == ArgAt(args, i);
  }

  /** Unrecognised arguments count as absent: replacing a trailing one by
      nothing changes no routing decision. */
  lemma RoutingIgnoresTrailingOther(args: seq<Arg>, globalContext: map<string, string>)
    ensures RouteArguments(args + [OtherArg], globalContext) == RouteArguments(args, globalContext)
  {
    assert forall i :: 0 <= i < 3 ==> ArgAt(args + [OtherArg], i) == ArgAt(args, i);
  }

  /** The data `Add` stores when data is already present: incoming keys are
      written over the stored table, and a non-empty incoming overlay list is
      appended to the stored one (created first when it is `null`). */
  function Merge(stored: DataOptions, incoming: DataOptions): (m: DataOptions)
    // the table: every key of both, last write wins
    ensures m.Values.Keys == stored.Values.Keys + incoming.Values.Keys
    ensures forall k :: k in incoming.Values ==> m.Values[k] == incoming.Values[k]
    ensures forall k :: k in stored.Values && k !in incoming.Values ==> m.Values[k] == stored.Values[k]
    // the overlays: appended in order, never removed
    ensures Overlays(m) == Overlays(stored) + Overlays(incoming)
    // a null or empty incoming list leaves the stored list exactly as it was
    ensures incoming.Contexts.None? || incoming.Contexts == Some([]) ==> m.Contexts == stored.Contexts
    ensures m.Contexts.None? <==> stored.Contexts.None? && Overlays(incoming) == []
  {
    var contexts :=
      if incoming.Contexts.Some? && |incoming.Contexts.value| > 0
      then Some(Overlays(stored) + incoming.Contexts.value)
      else stored.Contexts;
    DataOptions(stored.Values + incoming.Values, contexts)
  }

  /** Adding `b` and then `c` stores what adding them merged in one step
      stores: the merge is additive. */
  lemma MergeIsAssociative(a: DataOptions, b: DataOptions, c: DataOptions)
    ensures Merge(Merge(a, b), c) == Merge(a, Merge(b, c))
  {
    assert Overlays(Merge(a, b)) + Overlays(c) == Overlays(a) + Overlays(Merge(b, c));
  }

  class Translator {
    /** The loaded data; `None` until the first `Add` and after `ResetData`. */
    var data: Option<DataOptions>
    /** The context used when a call supplies none. */
    var globalContext: map<string, string>
    /** The pluralisation extension, if one was registered. */
    var extension: Option<Extension>

    constructor ()
      ensures data == None && globalContext == map[] && extension == None
    {
      data := None;
      globalContext := map[];
      extension := None;
    }

    /** `Add`: the first data is adopted as it is; later data is merged in. */
    method Add(incoming: DataOptions)
      modifies this
      ensures old(data).None? ==> data == Some(incoming)
      ensures old(data).Some? ==> data == Some(Merge(old(data).value, incoming))
      ensures globalContext == old(globalContext) && extension == old(extension)
    {
      if data.None? {
        data := Some(incoming);
      } else {
        var stored := data.value;
        var values := stored.Values;
        var pending := incoming.Values.Keys;
        while pending != {}
          invariant pending <= incoming.Values.Keys
          invariant values == stored.Values + map k | k in incoming.Values.Keys - pending :: incoming.Values[k]
          decreases pending
        {
          var key :| key in pending;
          values := values[key := incoming.Values[key]];
          pending := pending - {key};
        }
        assert (map k | k in incoming.Values.Keys :: incoming.Values[k]) == incoming.Values;
        assert values == stored.Values + incoming.Values;
        var contexts := stored.Contexts;
        if incoming.Contexts.Some? && |incoming.Contexts.value| > 0 {
          if contexts.None? {
            contexts := Some([]);
          }
          contexts := Some(contexts.value + incoming.Contexts.value);
        }
        assert contexts == Merge(stored, incoming).Contexts;
        data := Some(DataOptions(values, contexts));
      }
    }

    /** `SetContext`: sets exactly one global context entry. */
    method SetContext(key: string, value: string)
      modifies this
      ensures globalContext == old(globalContext)[key := value]
      ensures data == old(data) && extension == old(extension)
    {
      globalContext := globalContext[key := value];
    }

    /** `ClearContext`: removes exactly one global context entry, if present. */
    method ClearContext(key: string)
      modifies this
      ensures globalContext == old(globalContext) - {key}
      ensures key !in old(globalContext) ==> globalContext == old(globalContext)
      ensures data == old(data) && extension == old(extension)
    {
      globalContext := globalContext - {key};
    }

    /** `Extend`: the new extension replaces any earlier one. */
    method Extend(ext: Extension)
      modifies this
      ensures extension == Some(ext)
      ensures data == old(data) && globalContext == old(globalContext)
    {
      extension := Some(ext);
    }

    /** `ResetData`: forgets all translation data. */
    method ResetData()
      modifies this
      ensures data == None
      ensures globalContext == old(globalContext) && extension == old(extension)
    {
      data := None;
    }

    /** `ResetContext`: empties the global context. */
    method ResetContext()
      modifies this
      ensures globalContext == map[]
      ensures data == old(data) && extension == old(extension)
    {
      globalContext := map[];
    }

    /** `Reset`: forgets data and context, but keeps the extension. */
    method Reset()
      modifies this
      ensures data == None && globalContext == map[]
      ensures extension == old(extension)
    {
      ResetData();
      ResetContext();
    }

    /** `Translate`: routes the arguments, then resolves the text against the
      current state; the state is not changed, so equal calls give equal results. */
    method Translate(text: string, args: seq<Arg>) returns (r: string)
      ensures var c := RouteArguments(args, globalContext);
        r == TranslateText(data, extension, text, c.num, c.formatting, c.context)
    {
      var c := RouteArguments(args, globalContext);
      r := TranslateText(data, extension, text, c.num, c.formatting, c.context);
    }
  }
}
