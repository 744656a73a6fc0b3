/**
 * The identicon factory: an ordered chain of preprocessors (typically one
 * digest) feeding one generator, with an entropy gate that compares the last
 * preprocessor's declared entropy with the generator's requirement before
 * any preprocessing happens.
 */
module Identicons {
  import opened Wrappers
  import opened Errors
  import opened BaseGenerators
  import opened PixelBits
  import opened PixelGrid
  import PixelGenerators

  /** A preprocessor: the entropy it declares and the transformation it applies. */
  datatype Preprocessor = Preprocessor(entropy: int, process: string -> string)

  /** A generator: its base configuration (size, required entropy) and its generation step. */
  datatype Generator<A> = Generator(base: BaseGenerator, generate: string -> A)

  /** The preprocessors applied in list order: p_n(...p_2(p_1(data))...). */
  function Pipeline(ps: seq<Preprocessor>, data: string): string
    decreases |ps|
  {
    if ps == [] then data else ps[|ps| - 1].process(Pipeline(ps[..|ps| - 1], data))
  }

  /** The first preprocessor runs first, on the raw data. */
  lemma {:induction false} PipelineFirstStep(ps: seq<Preprocessor>, data: string)
    requires ps != []
    ensures Pipeline(ps, data) == Pipeline(ps[1..], ps[0].process(data))
    decreases |ps|
  {
    if |ps| > 1 {
      var front := ps[..|ps| - 1];
      PipelineFirstStep(front, data);
      assert front[1..] == ps[1..][..|ps[1..]| - 1];
    }
  }

  /** The loop of `generate` read literally: hand the data to each preprocessor in turn. */
  function ForwardFold(ps: seq<Preprocessor>, data: string): string
    decreases |ps|
  {
    if ps == [] then data else ForwardFold(ps[1..], ps[0].process(data))
  }

  /** Folding from the back and running the list from the front agree. */
  lemma {:induction false} PipelineIsForwardFold(ps: seq<Preprocessor>, data: string)
    ensures Pipeline(ps, data) == ForwardFold(ps, data)
    decreases |ps|
  {
    if ps != [] {
      PipelineFirstStep(ps, data);
      PipelineIsForwardFold(ps[1..], ps[0].process(data));
    }
  }

  /** Chaining two lists runs the second on the output of the first. */
  lemma {:induction false} PipelineAppend(ps: seq<Preprocessor>, qs: seq<Preprocessor>, data: string)
    ensures Pipeline(ps + qs, data) == Pipeline(qs, Pipeline(ps, data))
    decreases |qs|
  {
    if qs == [] {
      assert ps + qs == ps;
    } else {
      assert (ps + qs)[..|ps + qs| - 1] == ps + qs[..|qs| - 1];
      PipelineAppend(ps, qs[..|qs| - 1], data);
    }
  }

  /**
   * The entropy gate of `generate`: with a non-empty list and checking on,
   * the generator's `check_entropy` is asked about the last preprocessor's
   * entropy; a refusal is a ValueError naming both entropies.
   */
  function Gate<A>(ps: seq<Preprocessor>, g: Generator<A>, checkEntropy: bool): (failure: Option<Error>)
    ensures failure.Some? ==> ps != [] && checkEntropy
    ensures ps != [] && checkEntropy && g.base.entropy.Some? ==>
              (failure.Some? <==> ps[|ps| - 1].entropy < g.base.entropy.value)
    ensures ps != [] && checkEntropy && g.base.entropy.None? ==> failure == Some(TypeError)
  {
    if ps == [] || !checkEntropy then None
    else
      var last := ps[|ps| - 1];
      match CheckEntropy(g.base, last.entropy)
      case Failure(e) => Some(e)
      case Success(ok) =>
        if ok then None else Some(ValueError(InsufficientEntropy(last.entropy, g.base.entropy.value)))
  }

  /** Only the last preprocessor's entropy matters: lists that agree on it get the same verdict. */
  lemma GateReadsOnlyLast<A>(ps: seq<Preprocessor>, qs: seq<Preprocessor>, g: Generator<A>, checkEntropy: bool)
    requires ps != [] && qs != []
    requires ps[|ps| - 1].entropy == qs[|qs| - 1].entropy
    ensures Gate(ps, g, checkEntropy) == Gate(qs, g, checkEntropy)
  {
  }

  /** With checking off, or with no preprocessors, the gate never fires. */
  lemma GateOff<A>(ps: seq<Preprocessor>, g: Generator<A>, checkEntropy: bool)
    requires !checkEntropy || ps == []
    ensures Gate(ps, g, checkEntropy) == None
  {
  }

  /** The result of `generate`: the gate's error, or the generator applied to the preprocessed data. */
  function GenerateOutcome<A>(ps: seq<Preprocessor>, g: Generator<A>, checkEntropy: bool, data: string): (r: Result<A, Error>)
    ensures r.Success? ==> r.value == g.generate(Pipeline(ps, data))
    ensures r.Failure? ==> checkEntropy && ps != [] && (r.error == TypeError <==> g.base.entropy.None?)
    ensures r.Failure? && g.base.entropy.Some? ==>
              r.error == ValueError(InsufficientEntropy(ps[|ps| - 1].entropy, g.base.entropy.value)) &&
              ps[|ps| - 1].entropy < g.base.entropy.value
    ensures checkEntropy && ps != [] && g.base.entropy.Some? ==>
              (r.Success? <==> ps[|ps| - 1].entropy >= g.base.entropy.value)
    ensures checkEntropy && ps != [] && g.base.entropy.None? ==> r == Failure(TypeError)
  {
    match Gate(ps, g, checkEntropy)
    case Some(e) => Failure(e)
    case None => Success(g.generate(Pipeline(ps, data)))
  }

  /** With no preprocessors there is no gate and the raw data goes to the generator unchanged. */
  lemma EmptyChainPassesRawData<A>(g: Generator<A>, checkEntropy: bool, data: string)
    ensures GenerateOutcome([], g, checkEntropy, data) == Success(g.generate(data))
  {
  }

  /** The gate's verdict depends on the configuration alone, never on the data or on what the preprocessors compute. */
  lemma GateBeforeWork<A>(ps: seq<Preprocessor>, qs: seq<Preprocessor>, g: Generator<A>, checkEntropy: bool, data: string, other: string)
    requires GenerateOutcome(ps, g, checkEntropy, data).Failure?
    requires qs != [] && qs[|qs| - 1].entropy == ps[|ps| - 1].entropy
    ensures GenerateOutcome(qs, g, checkEntropy, other) == GenerateOutcome(ps, g, checkEntropy, data)
  {
    GateReadsOnlyLast(ps, qs, g, checkEntropy);
  }

  /** A preprocessor whose every output is an even-length hex digest carrying exactly its declared entropy. */
  ghost predicate EmitsHexDigest(p: Preprocessor) {
    forall s :: AllHex(p.process(s)) && |p.process(s)| % 2 == 0 && 4 * |p.process(s)| == p.entropy
  }

  /** The pixel generator behind the generator interface, with the default avatar size 120 and padding 0. */
  function PixelAsGenerator(pg: PixelGenerators.PixelGenerator): Generator<Result<PixelGenerators.Rendering, Error>> {
    Generator(pg.Base(), data => PixelGenerators.Outcome(pg, data, 120, 0))
  }

  /**
   * End to end: when the last preprocessor emits honest hex digests and the
   * gate lets it through, the pixel generator renders without an index error.
   */
  lemma GatePassedRenders(ps: seq<Preprocessor>, pg: PixelGenerators.PixelGenerator, data: string)
    requires ps != [] && EmitsHexDigest(ps[|ps| - 1])
    requires pg.entropy == RequiredEntropy(pg.size) && pg.size > 0 && |pg.foregroundColors| > 0
    requires Gate(ps, PixelAsGenerator(pg), true) == None
    ensures GenerateOutcome(ps, PixelAsGenerator(pg), true, data).Success?
    ensures GenerateOutcome(ps, PixelAsGenerator(pg), true, data).value.Success?
  {
    var digest := Pipeline(ps, data);
    assert digest == ps[|ps| - 1].process(Pipeline(ps[..|ps| - 1], data));
    PixelGenerators.DigestMeetingGateRenders(pg, digest, 120, 0);
  }

  /** The identicon factory object. */
  class Identicon<A> {
    var preprocessors: seq<Preprocessor>
    var generator: Generator<A>
    var checkEntropy: bool

    /** Stores the configuration; a missing preprocessor list becomes the empty list. */
    constructor (preprocessors: Option<seq<Preprocessor>>, generator: Generator<A>, checkEntropy: bool)
      ensures this.preprocessors == (if preprocessors.Some? then preprocessors.value else [])
      ensures this.generator == generator && this.checkEntropy == checkEntropy
    {
      this.preprocessors := if preprocessors.Some? then preprocessors.value else [];
      this.generator := generator;
      this.checkEntropy := checkEntropy;
    }

    /** `Identicon(...)`: refuses a missing generator with a ValueError, otherwise builds the factory. */
    static method Create(preprocessors: Option<seq<Preprocessor>>, generator: Option<Generator<A>>, checkEntropy: bool)
      returns (r: Result<Identicon<A>, Error>)
      ensures r.Failure? <==> generator.None?
      ensures r.Failure? ==> r.error == ValueError(MissingGenerator)
      ensures r.Success? ==> fresh(r.value) && r.value.generator == generator.value
      ensures r.Success? ==> r.value.checkEntropy == checkEntropy
      ensures r.Success? ==> r.value.preprocessors == (if preprocessors.Some? then preprocessors.value else [])
    {
      if generator.None? {
        return Failure(ValueError(MissingGenerator));
      }
      var identicon := new Identicon(preprocessors, generator.value, checkEntropy);
      return Success(identicon);
    }

    /**
     * `generate`: the gate first, then every preprocessor in list order, then
     * the generator on the final string.
     */
    method Generate(data: string) returns (r: Result<A, Error>)
      ensures r == GenerateOutcome(preprocessors, generator, checkEntropy, data)
      ensures r.Failure? <==> Gate(preprocessors, generator, checkEntropy).Some?
      ensures r.Success? ==> r.value == generator.generate(Pipeline(preprocessors, data))
    {
      var current := data;
      if |preprocessors| > 0 {
        var last := preprocessors[|preprocessors| - 1];
        if checkEntropy {
          var verdict := CheckEntropy(generator.base, last.entropy);
          if verdict.Failure? {
            return Failure(verdict.error);
          }
          if !verdict.value {
            return Failure(ValueError(InsufficientEntropy(last.entropy, generator.base.entropy.value)));
          }
        }
        var i := 0;
        while i < |preprocessors|
          invariant 0 <= i <= |preprocessors|
          invariant current == Pipeline(preprocessors[..i], data)
        {
          assert preprocessors[..i + 1][..i] == preprocessors[..i];
          current := preprocessors[i].process(current);
          i := i + 1;
        }
        assert preprocessors[..i] == preprocessors;
      }
      return Success(generator.generate(current));
    }
  }
}
