/**
 * The WidgetInstance constructor of src/WidgetInstance.ts and
 * src/helpers/WidgetInstance.ts, as the ordered list of effects it has on
 * the world: the id stamp, the prop read, the helpers factory call and the
 * handler call, together with the instance it yields or the error it throws.
 */
module Widget {
  import opened Wrappers
  import opened Text
  import opened Dom
  import Codec
  import Props

  /** Configuration the constructor reads: id prefix, identity attribute, prop prefix. */
  datatype Settings = Settings(idPrefix: string, idAttr: string, propPrefix: string)

  /**
   * The values of src/helpers/configs.ts. That file defines no prop prefix,
   * so it stays a parameter.
   */
  function HelpersSettings(propPrefix: string): Settings {
    Settings("w_", "data-widget-id", propPrefix)
  }

  /** The capability object of the helpers constructor has exactly these members. */
  const HookNames: set<string> := {"qs", "qsa", "useState", "useDebouncedState"}

  /** A function value returned by a handler. */
  type Teardown(==)

  /** The object a helpers factory returns. */
  type Caps(==)

  /** The first argument of a handler: `{$el, props, id}`. */
  datatype Context = Context(el: Elem, props: Props.PropMap, id: string)

  /** The second argument of a handler. */
  datatype HelpersArg = Custom(caps: Caps) | Hooks(names: set<string>)

  /** What a handler call does: throw, or return a teardown (None for a falsy return). */
  datatype Reply = Threw | Returned(teardown: Option<Teardown>)

  /**
   * src/WidgetInstance.ts calls a helpers factory with the element (None: the
   * factory throws); src/helpers/WidgetInstance.ts passes its own four hooks
   * instead.
   */
  datatype Flavour = WithFactory(factory: Elem -> Option<Caps>) | WithHooks

  /** The observable steps of construction, in the order they happen. */
  datatype Effect =
    | StampId(attr: string, id: string)
    | ReadProps(attrs: seq<Attr>)
    | MakeHelpers(el: Elem)
    | RunHandler(ctx: Context, helpers: HelpersArg)

  /** Why a constructor throws. */
  datatype Failure = BadProp(error: Codec.Error) | FactoryThrew | HandlerThrew

  /** `destroy`: the handler's teardown, or a no-op when the handler returned nothing. */
  datatype Destroy = Noop | Call(teardown: Teardown)

  datatype Instance = Instance(id: string, el: Elem, props: Props.PropMap, destroy: Destroy)

  /** Effects performed, the element's attributes afterwards, what the prop read gave, and the outcome. */
  datatype Construction = Construction(effects: seq<Effect>, attrs: seq<Attr>, read: Result<Props.PropMap, Codec.Error>,
                                       result: Result<Instance, Failure>)

  /** The instance's `collectProps` method, as a function of the element's attributes. */
  type PropReader = seq<Attr> -> Result<Props.PropMap, Codec.Error>

  /** The `collectProps` both constructors use: the attribute reading of the Props module. */
  function Reader(h: Codec.Host, s: Settings): PropReader {
    attrs => Props.CollectProps(h, s.propPrefix, attrs)
  }

  /** `${idPrefix}${nanoid(6)}` for the suffix the generator returned. */
  function NewId(s: Settings, suffix: string): (id: string)
    ensures StartsWith(id, s.idPrefix)
    ensures |id| == |s.idPrefix| + |suffix|
    ensures id[|s.idPrefix|..] == suffix
  {
    s.idPrefix + suffix
  }

  /** With the shipped prefix and a six-character suffix, ids are `w_` and eight characters long. */
  lemma ShippedIdShape(propPrefix: string, suffix: string)
    requires |suffix| == 6
    ensures var id := NewId(HelpersSettings(propPrefix), suffix);
      StartsWith(id, "w_") && |id| == 8
  {
  }

  /**
   * The capability argument the handler receives: what the factory returned
   * for the element, or the object of exactly four hooks; None when the
   * factory throws.
   */
  function HelpersFor(flavour: Flavour, el: Elem): (r: Option<HelpersArg>)
    ensures flavour.WithHooks? ==> r == Some(Hooks({"qs", "qsa", "useState", "useDebouncedState"}))
    ensures flavour.WithFactory? ==> (r.None? <==> flavour.factory(el).None?)
    ensures flavour.WithFactory? && r.Some? ==> r.value == Custom(flavour.factory(el).value)
  {
    match flavour
    case WithFactory(f) => if f(el).Some? then Some(Custom(f(el).value)) else None
    case WithHooks => Some(Hooks(HookNames))
  }

  /**
   * The constructor: generate the id, stamp it on the element, collect the
   * props from the stamped element, call the helpers factory (first flavour
   * only), call the handler once, and keep its teardown. A throw from the
   * prop read, the factory or the handler ends construction where it happens.
   */
  function Construct(collect: PropReader, s: Settings, flavour: Flavour, el: Elem, attrs: seq<Attr>, suffix: string,
                     handler: (Context, HelpersArg) -> Reply): (c: Construction)
    requires DistinctNames(attrs)
    // The id is stamped first, exactly once, and stays on the element whatever happens next.
    ensures |c.effects| >= 2 && c.effects[0] == StampId(s.idAttr, NewId(s, suffix))
    ensures StampedOnceFirst(c.effects)
    ensures Lookup(c.attrs, LowerAscii(s.idAttr)) == Some(NewId(s, suffix))
    ensures forall n :: n != LowerAscii(s.idAttr) ==> Lookup(c.attrs, n) == Lookup(attrs, n)
    ensures DistinctNames(c.attrs)
    // Props are read second, from the element as it is after the stamp; a bad prop ends construction.
    ensures c.effects[1] == ReadProps(c.attrs)
    ensures c.read == collect(c.attrs)
    ensures c.read.Failure? ==> c.result == Failure(BadProp(c.read.error)) && |c.effects| == 2
    // The handler runs at most once, last, with the stamped id and the collected props.
    ensures RunsAtMostOnce(c.effects)
    ensures c.read.Success? && HelpersFor(flavour, el).Some? ==>
      var ctx := Context(el, c.read.value, NewId(s, suffix));
      && c.effects[|c.effects| - 1] == RunHandler(ctx, HelpersFor(flavour, el).value)
      && c.result == Outcome(ctx, handler(ctx, HelpersFor(flavour, el).value))
    // The helpers factory runs exactly once, with the element, right after the read;
    // when it throws, the handler never runs.
    ensures c.read.Success? && flavour.WithFactory? ==>
      |c.effects| >= 3 && c.effects[2] == MakeHelpers(el)
    ensures c.read.Success? && flavour.WithFactory? && flavour.factory(el).None? ==>
      |c.effects| == 3 && c.result == Failure(FactoryThrew) && NoHandlerRun(c.effects)
    ensures flavour.WithHooks? ==> NoHelpersCall(c.effects)
  {
    var id := NewId(s, suffix);
    var stamped := Stamp(attrs, s, id);
    var read := collect(stamped);
    var run := RunHandler(Context(el, map[], id), Hooks(HookNames));
    if read.Failure? then
      EffectShapes(StampId(s.idAttr, id), ReadProps(stamped), MakeHelpers(el), run);
      Construction([StampId(s.idAttr, id), ReadProps(stamped)], stamped, read, Failure(BadProp(read.error)))
    else if HelpersFor(flavour, el).None? then
      EffectShapes(StampId(s.idAttr, id), ReadProps(stamped), MakeHelpers(el), run);
      Construction([StampId(s.idAttr, id), ReadProps(stamped), MakeHelpers(el)], stamped, read, Failure(FactoryThrew))
    else
      var ctx := Context(el, read.value, id);
      var helpers := HelpersFor(flavour, el).value;
      var effects :=
        if flavour.WithFactory? then [StampId(s.idAttr, id), ReadProps(stamped), MakeHelpers(el), RunHandler(ctx, helpers)]
        else [StampId(s.idAttr, id), ReadProps(stamped), RunHandler(ctx, helpers)];
      EffectShapes(StampId(s.idAttr, id), ReadProps(stamped), MakeHelpers(el), RunHandler(ctx, helpers));
      Construction(effects, stamped, read, Outcome(ctx, handler(ctx, helpers)))
  }

  /** Only the first effect stamps an id. */
  ghost predicate StampedOnceFirst(effects: seq<Effect>) {
    |effects| > 0 && effects[0].StampId? && forall i :: 0 < i < |effects| ==> !effects[i].StampId?
  }

  /** No two effects run the handler. */
  ghost predicate RunsAtMostOnce(effects: seq<Effect>) {
    forall i, j :: 0 <= i < j < |effects| ==> !(effects[i].RunHandler? && effects[j].RunHandler?)
  }

  ghost predicate NoHelpersCall(effects: seq<Effect>) {
    forall i :: 0 <= i < |effects| ==> !effects[i].MakeHelpers?
  }

  ghost predicate NoHandlerRun(effects: seq<Effect>) {
    forall i :: 0 <= i < |effects| ==> !effects[i].RunHandler?
  }

  /** The three effect lists the constructor can produce have the shape above. */
  lemma EffectShapes(stamp: Effect, read: Effect, helpers: Effect, run: Effect)
    requires stamp.StampId? && read.ReadProps? && helpers.MakeHelpers? && run.RunHandler?
    ensures StampedOnceFirst([stamp, read]) && RunsAtMostOnce([stamp, read]) && NoHelpersCall([stamp, read])
    ensures StampedOnceFirst([stamp, read, run]) && RunsAtMostOnce([stamp, read, run]) && NoHelpersCall([stamp, read, run])
    ensures StampedOnceFirst([stamp, read, helpers]) && RunsAtMostOnce([stamp, read, helpers]) && NoHandlerRun([stamp, read, helpers])
    ensures StampedOnceFirst([stamp, read, helpers, run]) && RunsAtMostOnce([stamp, read, helpers, run])
  {
  }

  /** `setAttribute(idAttr, id)` on the element. */
  function Stamp(attrs: seq<Attr>, s: Settings, id: string): (r: seq<Attr>)
    requires DistinctNames(attrs)
    ensures DistinctNames(r)
    ensures Lookup(r, LowerAscii(s.idAttr)) == Some(id)
    ensures forall n :: n != LowerAscii(s.idAttr) ==> Lookup(r, n) == Lookup(attrs, n)
  {
    SetAttribute(attrs, s.idAttr, id)
  }

  /** The instance a handler's reply yields, or the error its throw becomes. */
  function Outcome(ctx: Context, reply: Reply): (r: Result<Instance, Failure>)
    ensures r.Failure? <==> reply == Threw
    ensures r.Failure? ==> r.error == HandlerThrew
    ensures r.Success? ==> r.value.id == ctx.id && r.value.el == ctx.el && r.value.props == ctx.props
    ensures r.Success? ==> (r.value.destroy == Noop <==> reply == Returned(None))
  {
    match reply
    case Threw => Failure(HandlerThrew)
    case Returned(t) =>
      var destroy := if t.Some? then Call(t.value) else Noop;
      Success(Instance(ctx.id, ctx.el, ctx.props, destroy))
  }

  /** An attribute whose name carries the prefix is read into the prop its key names. */
  lemma AttributeBecomesProp(h: Codec.Host, prefix: string, attrs: seq<Attr>, name: string, value: string)
    requires prefix != [] && StartsWith(name, prefix)
    requires DistinctNames(attrs) && Lookup(attrs, name) == Some(value)
    requires Props.CollectProps(h, prefix, attrs).Success?
    ensures Success(Props.CollectProps(h, prefix, attrs).value[Props.PropKey(name)]) == Codec.ConvertType(h, value)
  {
    var i :| 0 <= i < |attrs| && attrs[i].name == name;
    assert attrs[i] == Attr(name, value);
    assert Props.Prefixed(attrs[i], prefix);
    Props.PropsOfDistinctAttributes(h, prefix, attrs);
  }

  /**
   * Because the stamp comes first, a prop prefix that the identity attribute
   * starts with makes the instance's own id one of its props.
   */
  lemma StampIsVisibleToProps(h: Codec.Host, s: Settings, flavour: Flavour, el: Elem, attrs: seq<Attr>, suffix: string,
                              handler: (Context, HelpersArg) -> Reply)
    requires DistinctNames(attrs)
    requires s.propPrefix != [] && StartsWith(LowerAscii(s.idAttr), s.propPrefix)
    requires Construct(Reader(h, s), s, flavour, el, attrs, suffix, handler).result.Success?
    ensures var c := Construct(Reader(h, s), s, flavour, el, attrs, suffix, handler);
      Success(c.result.value.props[Props.PropKey(LowerAscii(s.idAttr))]) == Codec.ConvertType(h, NewId(s, suffix))
  {
    var c := Construct(Reader(h, s), s, flavour, el, attrs, suffix, handler);
    assert c.read == Props.CollectProps(h, s.propPrefix, c.attrs);
    assert c.read.Success?;
    assert c.result.value.props == c.read.value;
    AttributeBecomesProp(h, s.propPrefix, c.attrs, LowerAscii(s.idAttr), NewId(s, suffix));
  }
}
