/** The binding-driven parser of src/packet/mod.rs, for any type of layer. A layer's kind stands for
    its type identity. */
module PacketParsing {
  import opened Bytes
  import opened Codecs

  /** Given the current layer and the unread bytes, possibly a reader for the next layer. It is
      partial: it may only be called on layers of the kind it was written for. */
  type Binding<!L> = (L, seq<byte>) --> Option<Reader<L>>

  type Registry<!K, !L> = map<K, seq<Binding<L>>>

  /** Every binding stored under a kind accepts every layer of that kind. */
  ghost predicate Callable<K(!new), L(!new)>(kindOf: L -> K, r: Registry<K, L>) {
    forall k, i, l, rest :: k in r && 0 <= i < |r[k]| && kindOf(l) == k ==> r[k][i].requires(l, rest)
  }

  /** A typed closure: it accepts every layer of the kind it is bound to. */
  ghost predicate Accepts<K(!new), L(!new)>(kindOf: L -> K, k: K, f: Binding<L>) {
    forall l, rest :: kindOf(l) == k ==> f.requires(l, rest)
  }

  ghost predicate AllAnswer<L(!new)>(cbs: seq<Binding<L>>, l: L, rest: seq<byte>) {
    forall i :: 0 <= i < |cbs| ==> cbs[i].requires(l, rest)
  }

  function Bind<K, L>(r: Registry<K, L>, k: K, f: Binding<L>): Registry<K, L> {
    r[k := (if k in r then r[k] else []) + [f]]
  }

  // ----- Choosing the next reader -----

  /** The newest binding that answers wins. */
  function Select<L(!new)>(cbs: seq<Binding<L>>, l: L, rest: seq<byte>): Option<Reader<L>>
    requires AllAnswer(cbs, l, rest)
  {
    if |cbs| == 0 then None
    else
      var answer := cbs[|cbs| - 1](l, rest);
      if answer.Some? then answer else Select(cbs[..|cbs| - 1], l, rest)
  }

  lemma {:induction false} SelectIsNewest<L(!new)>(cbs: seq<Binding<L>>, l: L, rest: seq<byte>)
    requires AllAnswer(cbs, l, rest)
    ensures Select(cbs, l, rest).None? <==> forall i :: 0 <= i < |cbs| ==> cbs[i](l, rest).None?
    ensures Select(cbs, l, rest).Some? ==>
              exists i :: 0 <= i < |cbs| && cbs[i](l, rest) == Select(cbs, l, rest)
                          && forall j :: i < j < |cbs| ==> cbs[j](l, rest).None?
  {
    if |cbs| > 0 && cbs[|cbs| - 1](l, rest).None? {
      SelectIsNewest(cbs[..|cbs| - 1], l, rest);
    }
  }

  function Next<K(!new), L(!new)>(kindOf: L -> K, r: Registry<K, L>, l: L, rest: seq<byte>): Option<Reader<L>>
    requires Callable(kindOf, r)
  {
    if kindOf(l) in r then Select(r[kindOf(l)], l, rest) else None
  }

  // ----- Following the bindings -----

  /** A result seen from the start of the packet. */
  function After<L>(front: seq<L>, r: Parsed<seq<L>>): Parsed<seq<L>> {
    match r
    case Failed => Failed
    case Parsed(ls, rest) => Parsed(front + ls, rest)
  }

  /** The result of following the bindings, if at most `steps` further layers are read on the way. */
  ghost function Run<K(!new), L(!new)>(kindOf: L -> K, r: Registry<K, L>, current: L, rest: seq<byte>, steps: nat)
    : Option<Parsed<seq<L>>>
    requires Callable(kindOf, r)
    decreases steps
  {
    var next := Next(kindOf, r, current, rest);
    if rest == [] || next.None? then Some(Parsed([current], rest))
    else
      match next.value(rest)
      case Failed => Some(Failed)
      case Parsed(l, rest') =>
        if steps == 0 then None
        else
          match Run(kindOf, r, l, rest', steps - 1)
          case None => None
          case Some(out) => Some(After([current], out))
  }

  /** The loop comes to an end. */
  ghost predicate Terminates<K(!new), L(!new)>(kindOf: L -> K, r: Registry<K, L>, current: L, rest: seq<byte>)
    requires Callable(kindOf, r)
  {
    exists steps: nat :: Run(kindOf, r, current, rest, steps).Some?
  }

  ghost function ParseFrom<K(!new), L(!new)>(kindOf: L -> K, r: Registry<K, L>, current: L, rest: seq<byte>)
    : Parsed<seq<L>>
    requires Callable(kindOf, r) && Terminates(kindOf, r, current, rest)
  {
    var steps: nat :| Run(kindOf, r, current, rest, steps).Some?;
    Run(kindOf, r, current, rest, steps).value
  }

  ghost predicate Halts<K(!new), L(!new)>(kindOf: L -> K, r: Registry<K, L>, first: Reader<L>, input: seq<byte>)
    requires Callable(kindOf, r)
  {
    first(input).Parsed? ==> Terminates(kindOf, r, first(input).value, first(input).rest)
  }

  ghost function ParseSpec<K(!new), L(!new)>(kindOf: L -> K, r: Registry<K, L>, first: Reader<L>, input: seq<byte>)
    : Parsed<seq<L>>
    requires Callable(kindOf, r) && Halts(kindOf, r, first, input)
  {
    match first(input)
    case Failed => Failed
    case Parsed(l, rest) => ParseFrom(kindOf, r, l, rest)
  }

  /** One more layer, or the end. */
  lemma RunStep<K(!new), L(!new)>(kindOf: L -> K, r: Registry<K, L>, current: L, rest: seq<byte>, steps: nat)
    requires Callable(kindOf, r) && Run(kindOf, r, current, rest, steps).Some?
    ensures var next, out := Next(kindOf, r, current, rest), Run(kindOf, r, current, rest, steps).value;
            if rest == [] || next.None? then out == Parsed([current], rest)
            else match next.value(rest)
                 case Failed => out == Failed
                 case Parsed(l, rest') =>
                   && steps > 0 && Run(kindOf, r, l, rest', steps - 1).Some?
                   && out == After([current], Run(kindOf, r, l, rest', steps - 1).value)
  {
    hide Next;
  }

  lemma {:induction false} MoreSteps<K(!new), L(!new)>(kindOf: L -> K, r: Registry<K, L>, current: L, rest: seq<byte>,
                                                      n: nat, m: nat)
    requires Callable(kindOf, r) && n <= m && Run(kindOf, r, current, rest, n).Some?
    ensures Run(kindOf, r, current, rest, m) == Run(kindOf, r, current, rest, n)
    decreases n
  {
    hide Next;
    if rest != [] && Next(kindOf, r, current, rest).Some? {
      var next := Next(kindOf, r, current, rest).value(rest);
      if next.Parsed? {
        MoreSteps(kindOf, r, next.value, next.rest, n - 1, m - 1);
      }
    }
  }

  /** Any number of steps that is enough gives the result. */
  lemma EnoughSteps<K(!new), L(!new)>(kindOf: L -> K, r: Registry<K, L>, current: L, rest: seq<byte>, n: nat)
    requires Callable(kindOf, r) && Run(kindOf, r, current, rest, n).Some?
    ensures Terminates(kindOf, r, current, rest)
    ensures ParseFrom(kindOf, r, current, rest) == Run(kindOf, r, current, rest, n).value
  {
    hide Run;
    var m: nat :| Run(kindOf, r, current, rest, m).Some?
                  && ParseFrom(kindOf, r, current, rest) == Run(kindOf, r, current, rest, m).value;
    if n <= m {
      MoreSteps(kindOf, r, current, rest, n, m);
    } else {
      MoreSteps(kindOf, r, current, rest, m, n);
    }
  }

  lemma ParseFromUnfold<K(!new), L(!new)>(kindOf: L -> K, r: Registry<K, L>, current: L, rest: seq<byte>)
    requires Callable(kindOf, r) && Terminates(kindOf, r, current, rest)
    ensures var next := Next(kindOf, r, current, rest);
            if rest == [] || next.None? then ParseFrom(kindOf, r, current, rest) == Parsed([current], rest)
            else match next.value(rest)
                 case Failed => ParseFrom(kindOf, r, current, rest) == Failed
                 case Parsed(l, rest') =>
                   && Terminates(kindOf, r, l, rest')
                   && ParseFrom(kindOf, r, current, rest) == After([current], ParseFrom(kindOf, r, l, rest'))
  {
    hide Next;
    var n: nat :| Run(kindOf, r, current, rest, n).Some?;
    EnoughSteps(kindOf, r, current, rest, n);
    if rest != [] && Next(kindOf, r, current, rest).Some? {
      var next := Next(kindOf, r, current, rest).value(rest);
      if next.Parsed? {
        EnoughSteps(kindOf, r, next.value, next.rest, n - 1);
      }
    }
  }

  class PacketParser<K(!new, ==), L(!new)> {
    const kindOf: L -> K
    var bindings: Registry<K, L>

    /** No stored binding can be called on a layer it would fail to downcast. */
    ghost predicate Valid()
      reads this
    {
      Callable(kindOf, bindings)
    }

    constructor WithoutBindings(kindOf: L -> K)
      ensures Valid() && bindings == map[] && this.kindOf == kindOf
    {
      this.kindOf := kindOf;
      this.bindings := map[];
    }

    method BindLayer(k: K, f: Binding<L>)
      requires Valid() && Accepts(kindOf, k, f)
      modifies this
      ensures Valid() && bindings == Bind(old(bindings), k, f)
    {
      var callbacks := if k in bindings then bindings[k] else [];
      bindings := bindings[k := callbacks + [f]];
    }

    method FindReader(current: L, rest: seq<byte>) returns (read: Option<Reader<L>>)
      requires Valid()
      ensures read == Next(kindOf, bindings, current, rest)
    {
      var k := kindOf(current);
      if k !in bindings {
        return None;
      }
      var callbacks := bindings[k];
      var i := |callbacks|;
      assert callbacks[..i] == callbacks;
      while i > 0
        invariant 0 <= i <= |callbacks|
        invariant AllAnswer(callbacks[..i], current, rest)
        invariant Select(callbacks[..i], current, rest) == Next(kindOf, bindings, current, rest)
      {
        i := i - 1;
        assert callbacks[..i + 1][..i] == callbacks[..i];
        var answer := callbacks[i](current, rest);
        if answer.Some? {
          return answer;
        }
      }
      return None;
    }

    method ParsePacket(first: Reader<L>, input: seq<byte>) returns (r: Parsed<seq<L>>)
      requires Valid() && Halts(kindOf, bindings, first, input)
      ensures r == ParseSpec(kindOf, bindings, first, input)
    {
      hide Next, Run;
      var layers: seq<L> := [];
      var start := first(input);
      if start.Failed? {
        return Failed;
      }
      var current, rest := start.value, start.rest;
      ghost var steps: nat :| Run(kindOf, bindings, current, rest, steps).Some?;
      ghost var goal := Run(kindOf, bindings, current, rest, steps).value;
      EnoughSteps(kindOf, bindings, current, rest, steps);
      assert goal.Parsed? ==> layers + goal.value == goal.value;
      while rest != []
        invariant Run(kindOf, bindings, current, rest, steps).Some?
        invariant After(layers, Run(kindOf, bindings, current, rest, steps).value) == goal
        decreases steps
      {
        RunStep(kindOf, bindings, current, rest, steps);
        var read := FindReader(current, rest);
        if read.None? {
          break;
        }
        var next := read.value(rest);
        if next.Failed? {
          return Failed;
        }
        ghost var out := Run(kindOf, bindings, next.value, next.rest, steps - 1).value;
        assert out.Parsed? ==> layers + ([current] + out.value) == layers + [current] + out.value;
        layers := layers + [current];
        current, rest, steps := next.value, next.rest, steps - 1;
      }
      RunStep(kindOf, bindings, current, rest, steps);
      layers := layers + [current];
      return Parsed(layers, rest);
    }
  }

  // ----- When the loop ends -----

  /** Every step consumes input, or leads to a kind of lower rank. */
  ghost predicate Ranked<K(!new), L(!new)>(kindOf: L -> K, r: Registry<K, L>, rank: K -> nat)
    requires Callable(kindOf, r)
  {
    forall l, rest :: rest != [] && Next(kindOf, r, l, rest).Some? ==>
      Lower(kindOf, rank, l, rest, Next(kindOf, r, l, rest).value(rest))
  }

  predicate Lower<K, L>(kindOf: L -> K, rank: K -> nat, l: L, rest: seq<byte>, next: Parsed<L>) {
    next.Parsed? ==>
      |next.rest| < |rest| || (|next.rest| == |rest| && rank(kindOf(next.value)) < rank(kindOf(l)))
  }

  /** A ranked registry always terminates, also with readers that consume nothing. */
  lemma {:induction false} RankedTerminates<K(!new), L(!new)>(kindOf: L -> K, r: Registry<K, L>, rank: K -> nat,
                                                             current: L, rest: seq<byte>)
    requires Callable(kindOf, r) && Ranked(kindOf, r, rank)
    ensures Terminates(kindOf, r, current, rest)
    decreases |rest|, rank(kindOf(current))
  {
    hide Next;
    if rest != [] && Next(kindOf, r, current, rest).Some? {
      var next := Next(kindOf, r, current, rest).value(rest);
      if next.Parsed? {
        assert Lower(kindOf, rank, current, rest, next);
        RankedTerminates(kindOf, r, rank, next.value, next.rest);
        var n: nat :| Run(kindOf, r, next.value, next.rest, n).Some?;
        assert Run(kindOf, r, current, rest, n + 1).Some?;
      } else {
        assert Run(kindOf, r, current, rest, 0).Some?;
      }
    } else {
      assert Run(kindOf, r, current, rest, 0).Some?;
    }
  }

  /** Every reader that some binding can hand out consumes input. */
  ghost predicate Progress<K(!new), L(!new)>(kindOf: L -> K, r: Registry<K, L>)
    requires Callable(kindOf, r)
  {
    forall l, rest :: Next(kindOf, r, l, rest).Some? ==> Productive(Next(kindOf, r, l, rest).value)
  }

  lemma ProgressTerminates<K(!new), L(!new)>(kindOf: L -> K, r: Registry<K, L>, current: L, rest: seq<byte>)
    requires Callable(kindOf, r) && Progress(kindOf, r)
    ensures Terminates(kindOf, r, current, rest)
  {
    hide Next, Terminates;
    var rank: K -> nat := k => 0;
    forall l, s | s != [] && Next(kindOf, r, l, s).Some?
      ensures Lower(kindOf, rank, l, s, Next(kindOf, r, l, s).value(s))
    {
      assert Productive(Next(kindOf, r, l, s).value);
    }
    RankedTerminates(kindOf, r, rank, current, rest);
  }

  lemma {:induction false} NeverDone<K(!new), L(!new)>(kindOf: L -> K, r: Registry<K, L>, l: L, rest: seq<byte>, n: nat)
    requires Callable(kindOf, r) && rest != [] && Next(kindOf, r, l, rest).Some?
    requires Next(kindOf, r, l, rest).value(rest) == Parsed(l, rest)
    ensures Run(kindOf, r, l, rest, n).None?
    decreases n
  {
    hide Next;
    if n > 0 {
      NeverDone(kindOf, r, l, rest, n - 1);
    }
  }

  /** A layer that reads itself back without consuming anything keeps the loop going for ever. */
  lemma SelfLoopNeverEnds<K(!new), L(!new)>(kindOf: L -> K, r: Registry<K, L>, l: L, rest: seq<byte>)
    requires Callable(kindOf, r) && rest != [] && Next(kindOf, r, l, rest).Some?
    requires Next(kindOf, r, l, rest).value(rest) == Parsed(l, rest)
    ensures !Terminates(kindOf, r, l, rest)
  {
    hide Next, Run;
    forall n: nat
      ensures Run(kindOf, r, l, rest, n).None?
    {
      NeverDone(kindOf, r, l, rest, n);
    }
  }

  // ----- What every registry guarantees -----

  lemma {:induction false} RunLayerBound<K(!new), L(!new)>(kindOf: L -> K, r: Registry<K, L>, current: L,
                                                          rest: seq<byte>, n: nat)
    requires Callable(kindOf, r) && Progress(kindOf, r)
    ensures var out := Run(kindOf, r, current, rest, n);
            out.Some? && out.value.Parsed? ==> 1 <= |out.value.value| <= 1 + |rest| - |out.value.rest|
    decreases n
  {
    hide Next;
    if n > 0 && rest != [] && Next(kindOf, r, current, rest).Some? {
      var read := Next(kindOf, r, current, rest).value;
      assert Productive(read);
      if read(rest).Parsed? {
        RunLayerBound(kindOf, r, read(rest).value, read(rest).rest, n - 1);
      }
    }
  }

  /** At most one layer per byte left after the first layer. */
  lemma LayerBound<K(!new), L(!new)>(kindOf: L -> K, r: Registry<K, L>, current: L, rest: seq<byte>)
    requires Callable(kindOf, r) && Progress(kindOf, r)
    ensures Terminates(kindOf, r, current, rest)
    ensures var out := ParseFrom(kindOf, r, current, rest);
            out.Parsed? ==> 1 <= |out.value| <= 1 + |rest| - |out.rest|
  {
    hide Run, Next, Progress;
    ProgressTerminates(kindOf, r, current, rest);
    var n: nat :| Run(kindOf, r, current, rest, n).Some?;
    EnoughSteps(kindOf, r, current, rest, n);
    RunLayerBound(kindOf, r, current, rest, n);
  }

  /** The readers a registry hands out give back the bytes they consume under `write`. */
  ghost predicate Conserving<K(!new), L(!new)>(kindOf: L -> K, r: Registry<K, L>, write: L -> seq<byte>)
    requires Callable(kindOf, r)
  {
    forall l, rest :: Next(kindOf, r, l, rest).Some? ==> Gives(Next(kindOf, r, l, rest).value, write)
  }

  ghost predicate Gives<L(!new)>(read: Reader<L>, write: L -> seq<byte>) {
    forall s :: read(s).Parsed? ==> s == write(read(s).value) + read(s).rest
  }

  lemma {:induction false} RunConserves<K(!new), L(!new)>(kindOf: L -> K, r: Registry<K, L>, write: L -> seq<byte>,
                                                         current: L, rest: seq<byte>, n: nat)
    requires Callable(kindOf, r) && Conserving(kindOf, r, write)
    ensures var out := Run(kindOf, r, current, rest, n);
            out.Some? && out.value.Parsed? ==>
              WriteAll(write, out.value.value) + out.value.rest == write(current) + rest
    decreases n
  {
    hide Next;
    var none: seq<L> := [];
    WriteAllCons(write, current, none, rest);
    assert [current] + none == [current];
    assert WriteAll(write, none) + rest == rest;
    if n > 0 && rest != [] && Next(kindOf, r, current, rest).Some? {
      var read := Next(kindOf, r, current, rest).value;
      var next := read(rest);
      if next.Parsed? {
        assert Gives(read, write);
        RunConserves(kindOf, r, write, next.value, next.rest, n - 1);
        var tail := Run(kindOf, r, next.value, next.rest, n - 1);
        if tail.Some? && tail.value.Parsed? {
          WriteAllCons(write, current, tail.value.value, tail.value.rest);
        }
      }
    }
  }

  /** Printed layers followed by the rest are the input, for every registry of conserving readers. */
  lemma ParseConserves<K(!new), L(!new)>(kindOf: L -> K, r: Registry<K, L>, write: L -> seq<byte>,
                                        first: Reader<L>, input: seq<byte>)
    requires Callable(kindOf, r) && Halts(kindOf, r, first, input)
    requires Conserving(kindOf, r, write) && Gives(first, write)
    ensures var out := ParseSpec(kindOf, r, first, input);
            out.Parsed? ==> WriteAll(write, out.value) + out.rest == input
  {
    hide Run, Next, Conserving;
    if first(input).Parsed? {
      var l, rest := first(input).value, first(input).rest;
      var n: nat :| Run(kindOf, r, l, rest, n).Some?;
      EnoughSteps(kindOf, r, l, rest, n);
      RunConserves(kindOf, r, write, l, rest, n);
    }
  }

  // ----- Adding a binding -----

  lemma BindKeepsCallable<K(!new), L(!new)>(kindOf: L -> K, r: Registry<K, L>, k: K, f: Binding<L>)
    requires Callable(kindOf, r) && Accepts(kindOf, k, f)
    ensures Callable(kindOf, Bind(r, k, f))
  {}

  /** A new binding overrides the older ones where it answers, on layers of its kind only. */
  lemma BindOverrides<K(!new), L(!new)>(kindOf: L -> K, r: Registry<K, L>, k: K, f: Binding<L>, l: L, rest: seq<byte>)
    requires Callable(kindOf, r) && Accepts(kindOf, k, f) && Callable(kindOf, Bind(r, k, f))
    ensures Next(kindOf, Bind(r, k, f), l, rest)
            == if kindOf(l) == k && f(l, rest).Some? then f(l, rest) else Next(kindOf, r, l, rest)
  {
    if kindOf(l) == k {
      var before := if k in r then r[k] else [];
      var cbs := before + [f];
      assert Bind(r, k, f)[k] == cbs;
      assert cbs[..|cbs| - 1] == before && cbs[|cbs| - 1] == f;
      assert AllAnswer(cbs, l, rest) && AllAnswer(before, l, rest);
      assert Select(cbs, l, rest) == if f(l, rest).Some? then f(l, rest) else Select(before, l, rest);
    }
  }

  /** A binding that is bound to kind k but never answers. */
  ghost predicate Silent<K(!new), L(!new)>(kindOf: L -> K, k: K, f: Binding<L>) {
    Accepts(kindOf, k, f) && forall l, s :: kindOf(l) == k ==> f(l, s).None?
  }

  lemma {:induction false} SilentRun<K(!new), L(!new)>(kindOf: L -> K, r: Registry<K, L>, k: K, f: Binding<L>,
                                                      current: L, rest: seq<byte>, n: nat)
    requires Callable(kindOf, r) && Callable(kindOf, Bind(r, k, f)) && Silent(kindOf, k, f)
    ensures Run(kindOf, Bind(r, k, f), current, rest, n) == Run(kindOf, r, current, rest, n)
    decreases n
  {
    hide Next, Bind;
    BindOverrides(kindOf, r, k, f, current, rest);
    assert Next(kindOf, Bind(r, k, f), current, rest) == Next(kindOf, r, current, rest);
    if n > 0 && rest != [] && Next(kindOf, r, current, rest).Some? {
      var next := Next(kindOf, r, current, rest).value(rest);
      if next.Parsed? {
        SilentRun(kindOf, r, k, f, next.value, next.rest, n - 1);
      }
    }
  }

  /** A binding that never answers changes no parse, neither its result nor whether it ends. */
  lemma SilentBinding<K(!new), L(!new)>(kindOf: L -> K, r: Registry<K, L>, k: K, f: Binding<L>,
                                       first: Reader<L>, input: seq<byte>)
    requires Callable(kindOf, r) && Silent(kindOf, k, f)
    ensures Callable(kindOf, Bind(r, k, f))
    ensures Halts(kindOf, Bind(r, k, f), first, input) <==> Halts(kindOf, r, first, input)
    ensures Halts(kindOf, r, first, input) ==>
              ParseSpec(kindOf, Bind(r, k, f), first, input) == ParseSpec(kindOf, r, first, input)
  {
    BindKeepsCallable(kindOf, r, k, f);
    hide Run, Next, Bind, Silent;
    if first(input).Parsed? {
      var l, rest := first(input).value, first(input).rest;
      forall n: nat
        ensures Run(kindOf, Bind(r, k, f), l, rest, n) == Run(kindOf, r, l, rest, n)
      {
        SilentRun(kindOf, r, k, f, l, rest, n);
      }
      if Terminates(kindOf, r, l, rest) {
        var n: nat :| Run(kindOf, r, l, rest, n).Some?;
        EnoughSteps(kindOf, r, l, rest, n);
        EnoughSteps(kindOf, Bind(r, k, f), l, rest, n);
      }
    }
  }

  /** Readers that lead away from a kind and do not lengthen their input. */
  ghost predicate LeadsAway<K(!new), L(!new)>(kindOf: L -> K, k: K, f: Binding<L>)
    requires Accepts(kindOf, k, f)
  {
    forall l, rest :: kindOf(l) == k && f(l, rest).Some? ==> AwayFrom(kindOf, k, rest, f(l, rest).value(rest))
  }

  predicate AwayFrom<K(==), L>(kindOf: L -> K, k: K, rest: seq<byte>, next: Parsed<L>) {
    next.Parsed? ==> kindOf(next.value) != k && |next.rest| <= |rest|
  }

  /** One binding from a kind to others always ends, even if no reader consumes a byte, as in the
      introductory example of `bind_layer`. */
  lemma OneWayBinding<K(!new), L(!new)>(kindOf: L -> K, k: K, f: Binding<L>, current: L, rest: seq<byte>)
    requires Accepts(kindOf, k, f) && LeadsAway(kindOf, k, f)
    ensures Callable(kindOf, Bind(map[], k, f)) && Terminates(kindOf, Bind(map[], k, f), current, rest)
  {
    var empty: Registry<K, L> := map[];
    var r := Bind(empty, k, f);
    BindKeepsCallable(kindOf, empty, k, f);
    var rank: K -> nat := x => if x == k then 1 else 0;
    forall l, s | s != [] && Next(kindOf, r, l, s).Some?
      ensures Lower(kindOf, rank, l, s, Next(kindOf, r, l, s).value(s))
    {
      BindOverrides(kindOf, empty, k, f, l, s);
      assert AwayFrom(kindOf, k, s, f(l, s).value(s));
    }
    RankedTerminates(kindOf, r, rank, current, rest);
  }
}
