/** The command-line reading of main.c: the `.bmp` extension test and
    `parse_arguments`, which turns `argv` into the input name, the output
    name and a filter pipeline. */
module Cli {
  import opened Wrappers
  import opened Utils
  import opened Pipeline

  /** `has_bmp_extension`: at least four characters, the last four equal to
      ".bmp" when compared without regard to case (`strcasecmp`). */
  function HasBmpExtension(name: string): (b: bool)
    ensures b <==> (|name| >= 4 && name[|name| - 4] == '.' &&
                    name[|name| - 3] in {'b', 'B'} && name[|name| - 2] in {'m', 'M'} &&
                    name[|name| - 1] in {'p', 'P'})
  {
    LowerPointwise(if |name| >= 4 then name[|name| - 4..] else "");
    |name| >= 4 && Lower(name[|name| - 4..]) == ".bmp"
  }

  /** The test ignores case, and any stem followed by an extension that
      lower-cases to ".bmp" passes it. */
  lemma {:induction false} BmpExtensionIgnoresCase(name: string, stem: string, ext: string)
    ensures HasBmpExtension(Lower(name)) == HasBmpExtension(name)
    ensures Lower(ext) == ".bmp" ==> HasBmpExtension(stem + ext)
  {
    if |name| >= 4 {
      var e := name[|name| - 4..];
      LowerPointwise(name);
      LowerPointwise(e);
      assert Lower(name)[|name| - 4..] == Lower(e);
      LowerIdempotent(e);
      if Lower(Lower(e)) == ".bmp" {
        assert Lower(e) == ".bmp";
      }
    }
    if Lower(ext) == ".bmp" {
      assert (stem + ext)[|stem + ext| - 4..] == ext;
    }
  }

  /** How many tokens follow each filter on the command line: the count
      `validate_filter_args` demands. */
  function Arity(kind: FilterType): (n: nat)
    ensures n <= 2
    ensures forall args, p :: Validate(kind, args, p) ==> |args| == n
  {
    match kind
    case FilterCrop => 2
    case FilterMosaic => 2
    case FilterEdge => 1
    case FilterMedian => 1
    case FilterBlur => 1
    case FilterCrystallize => 1
    case FilterGlass => 1
    case FilterGrayscale => 0
    case FilterNegative => 0
    case FilterSharpen => 0
    case FilterCount => 0
  }

  /** The arity table agrees with the argument counts validation demands:
      a step that validates has a known kind and exactly its arity. */
  lemma ArityAgrees(kind: FilterType, args: seq<string>, p: Parsers)
    requires Validate(kind, args, p)
    ensures kind != FilterCount && |args| == Arity(kind)
  {
  }

  /** The filter a token names: '-' followed by a name that
      `filter_name_to_type` knows; FilterCount for any other token. */
  function FlagKind(token: string): FilterType
  {
    if |token| > 0 && token[0] == '-' then KindOf(token[1..]) else FilterCount
  }

  /** The filter named at token i and the tokens after it that it takes:
      nothing when the token does not start with '-', names no filter, or
      fewer than its arity of tokens follow. */
  function Candidate(argv: seq<string>, i: nat): (o: Option<FilterParams>)
    requires i < |argv|
    ensures o.Some? ==> i + |o.value.args| < |argv| && |o.value.args| == Arity(o.value.kind)
  {
    var kind := FlagKind(argv[i]);
    var n := Arity(kind);
    if kind == FilterCount || i + n >= |argv| then None
    else Some(FilterParams(kind, argv[i + 1..i + 1 + n]))
  }

  /** One turn of the `parse_arguments` loop: the candidate at token i,
      kept when `pipeline_add_filter` accepts its arguments. */
  function NextFilter(argv: seq<string>, i: nat, p: Parsers): (o: Option<FilterParams>)
    requires i < |argv|
    ensures o.Some? ==> i + |o.value.args| < |argv| && |o.value.args| == Arity(o.value.kind)
    ensures o.Some? ==> Candidate(argv, i) == o && Validate(o.value.kind, o.value.args, p)
  {
    match Candidate(argv, i)
    case None => None
    case Some(f) => if Validate(f.kind, f.args, p) then Some(f) else None
  }

  /** The filters of `argv` from token i on, read one after the other
      while tokens remain; nothing as soon as one cannot be read. */
  function ParseFrom(argv: seq<string>, i: nat, p: Parsers): (r: Option<seq<FilterParams>>)
    ensures i >= |argv| ==> r == Some([])
    ensures i < |argv| && (|argv[i]| == 0 || argv[i][0] != '-') ==> r == None
    decreases |argv| - i, 2
  {
    if i >= |argv| then Some([]) else ParseAt(argv, i, p)
  }

  /** One turn of the loop: a token that does not start with '-' stops the
      parse, a flag is read as a filter. */
  function ParseAt(argv: seq<string>, i: nat, p: Parsers): Option<seq<FilterParams>>
    requires i < |argv|
    decreases |argv| - i, 1
  {
    if |argv[i]| == 0 || argv[i][0] != '-' then None else ParseFlag(argv, i, p)
  }

  /** The filter the flag at token i names, then the filters after its
      arguments. */
  function ParseFlag(argv: seq<string>, i: nat, p: Parsers): Option<seq<FilterParams>>
    requires i < |argv|
    decreases |argv| - i, 0
  {
    match NextFilter(argv, i, p)
    case None => None
    case Some(f) => Prepended([f], ParseFrom(argv, i + |f.args| + 1, p))
  }

  /** A turn of the loop reads the filter at token i, whatever the token:
      one that does not start with '-' names no filter. */
  lemma ParseStep(argv: seq<string>, i: nat, p: Parsers)
    requires i < |argv|
    ensures ParseFrom(argv, i, p) == ParseFlag(argv, i, p)
  {
    assert ParseFrom(argv, i, p) == ParseAt(argv, i, p);
    if |argv[i]| == 0 || argv[i][0] != '-' {
      assert FlagKind(argv[i]) == FilterCount;
      assert NextFilter(argv, i, p) == None;
    }
  }

  /** Some(s + rest) for Some(rest), nothing otherwise. */
  function Prepended(s: seq<FilterParams>, o: Option<seq<FilterParams>>): Option<seq<FilterParams>>
  {
    match o
    case None => None
    case Some(rest) => Some(s + rest)
  }

  lemma PrependedAssoc(s: seq<FilterParams>, f: FilterParams, o: Option<seq<FilterParams>>)
    ensures Prepended(s + [f], o) == Prepended(s, Prepended([f], o))
  {
    if o.Some? {
      assert s + [f] + o.value == s + ([f] + o.value);
    }
  }

  /** A parse from token i that succeeds read a filter there: a validated
      step with its arity of arguments, followed by the filters read after
      them. */
  lemma ParsedHead(argv: seq<string>, i: nat, p: Parsers) returns (f: FilterParams)
    requires i < |argv| && ParseFrom(argv, i, p).Some?
    ensures i + |f.args| < |argv| && |f.args| == Arity(f.kind) && Validate(f.kind, f.args, p)
    ensures ParseFrom(argv, i, p) == Prepended([f], ParseFrom(argv, i + |f.args| + 1, p))
  {
    ParseStep(argv, i, p);
    f := NextFilter(argv, i, p).value;
  }

  /** The tokens a list of filters takes: each its name and its arguments. */
  function Tokens(steps: seq<FilterParams>): nat
  {
    if |steps| == 0 then 0 else Arity(steps[0].kind) + 1 + Tokens(steps[1..])
  }

  /** Every step passes `validate_filter_args`. */
  predicate AllValid(steps: seq<FilterParams>, p: Parsers)
  {
    |steps| == 0 || (Validate(steps[0].kind, steps[0].args, p) && AllValid(steps[1..], p))
  }

  /** A successful parse consumes every token to the end: each filter
      exactly its arity plus its own name. Every parsed step validates. */
  lemma {:induction false} ParsedConsumesAll(argv: seq<string>, i: nat, p: Parsers)
    requires i <= |argv| && ParseFrom(argv, i, p).Some?
    ensures Tokens(ParseFrom(argv, i, p).value) == |argv| - i
    ensures AllValid(ParseFrom(argv, i, p).value, p)
    decreases |argv| - i
  {
    if i < |argv| {
      var f := ParsedHead(argv, i, p);
      var next := i + |f.args| + 1;
      assert ParseFrom(argv, next, p).Some?;
      var rest := ParseFrom(argv, next, p).value;
      ParsedConsumesAll(argv, next, p);
      var steps := ParseFrom(argv, i, p).value;
      assert steps == [f] + rest;
      assert steps[1..] == rest;
    }
  }

  /** The token `-name` for a filter. */
  function Token(kind: FilterType): string
    requires kind != FilterCount
  {
    "-" + NameOf(kind)
  }

  /** A filter's token is a flag for it. */
  lemma TokenFlag(token: string, kind: FilterType)
    requires kind != FilterCount && token == Token(kind)
    ensures FlagKind(token) == kind
  {
    assert token[1..] == NameOf(kind);
    KindOfName(kind);
  }

  /** A flag for a known filter, followed by its arity of tokens, is read as
      that filter with those tokens. */
  lemma CandidateOf(argv: seq<string>, i: nat, f: FilterParams)
    requires f.kind != FilterCount && |f.args| == Arity(f.kind) && i + |f.args| < |argv|
    requires FlagKind(argv[i]) == f.kind && argv[i + 1..i + 1 + |f.args|] == f.args
    ensures Candidate(argv, i) == Some(f)
  {
  }

  /** A flag for a validated filter followed by its arguments is read back
      as that filter, and reading goes on after its arguments. */
  lemma ParseOne(argv: seq<string>, i: nat, f: FilterParams, p: Parsers)
    requires Validate(f.kind, f.args, p)
    requires i + |f.args| < |argv| && FlagKind(argv[i]) == f.kind
    requires argv[i + 1..i + 1 + |f.args|] == f.args
    ensures ParseFrom(argv, i, p) == Prepended([f], ParseFrom(argv, i + |f.args| + 1, p))
  {
    ArityAgrees(f.kind, f.args, p);
    CandidateOf(argv, i, f);
    assert NextFilter(argv, i, p) == Some(f);
    ParseStep(argv, i, p);
  }

  /** Every step names a filter `filter_name_to_type` knows. */
  predicate Known(steps: seq<FilterParams>)
  {
    |steps| == 0 || (steps[0].kind != FilterCount && Known(steps[1..]))
  }

  /** The tokens of one filter: its token, then its arguments. */
  function StepTokens(f: FilterParams): (t: seq<string>)
    requires f.kind != FilterCount
    ensures |t| == |f.args| + 1
  {
    [Token(f.kind)] + f.args
  }

  /** The command line of a filter list: the tokens of each filter in
      order. */
  function Unparse(steps: seq<FilterParams>): seq<string>
    requires Known(steps)
  {
    if |steps| == 0 then [] else StepTokens(steps[0]) + Unparse(steps[1..])
  }

  /** argv holds, from token i to its end, the tokens of the steps in
      order. */
  predicate Encodes(argv: seq<string>, i: nat, steps: seq<FilterParams>)
    requires Known(steps)
    decreases |steps|
  {
    if |steps| == 0 then i == |argv|
    else
      var f := steps[0];
      && i + |f.args| < |argv|
      && argv[i] == Token(f.kind)
      && argv[i + 1..i + 1 + |f.args|] == f.args
      && Encodes(argv, i + |f.args| + 1, steps[1..])
  }

  /** Splitting a + (t + r) after a and after t. */
  lemma Regroup(a: seq<string>, t: seq<string>, r: seq<string>)
    requires |t| > 0
    ensures a + (t + r) == (a + t) + r
    ensures (a + (t + r))[|a|] == t[0]
    ensures (a + (t + r))[|a| + 1..|a| + |t|] == t[1..]
  {
    assert a + (t + r) == (a + t) + r;
    var s := a + (t + r);
    assert forall k :: 0 <= k < |t| - 1 ==> s[|a| + 1..|a| + |t|][k] == t[1..][k];
  }

  /** The command line of known steps, after any tokens, encodes them. */
  lemma {:induction false} UnparseEncodes(head: seq<string>, steps: seq<FilterParams>)
    requires Known(steps)
    ensures Encodes(head + Unparse(steps), |head|, steps)
    decreases |steps|
  {
    if |steps| == 0 {
      assert head + Unparse(steps) == head;
    } else {
      var f := steps[0];
      var t := StepTokens(f);
      assert Known(steps[1..]);
      var rest := Unparse(steps[1..]);
      assert Unparse(steps) == t + rest;
      Regroup(head, t, rest);
      assert t[1..] == f.args;
      UnparseEncodes(head + t, steps[1..]);
    }
  }

  /** An encoding starts with the token and the arguments of its first step,
      and the rest of it encodes the other steps. */
  lemma EncodedHead(argv: seq<string>, i: nat, steps: seq<FilterParams>)
    requires |steps| > 0 && Known(steps) && Encodes(argv, i, steps)
    ensures steps[0].kind != FilterCount && i + |steps[0].args| < |argv|
    ensures argv[i] == Token(steps[0].kind) && argv[i + 1..i + 1 + |steps[0].args|] == steps[0].args
    ensures Known(steps[1..]) && Encodes(argv, i + |steps[0].args| + 1, steps[1..])
  {
  }

  /** A filter's token followed by its validated arguments is read back as
      that filter, and reading goes on after them. */
  lemma ReadToken(argv: seq<string>, i: nat, f: FilterParams, p: Parsers)
    requires f.kind != FilterCount && Validate(f.kind, f.args, p)
    requires i + |f.args| < |argv| && argv[i] == Token(f.kind)
    requires argv[i + 1..i + 1 + |f.args|] == f.args
    ensures ParseFrom(argv, i, p) == Prepended([f], ParseFrom(argv, i + |f.args| + 1, p))
  {
    TokenFlag(argv[i], f.kind);
    ParseOne(argv, i, f, p);
  }

  /** Validated steps encoded from token i on are read back as themselves. */
  lemma {:induction false} ParseEncoded(argv: seq<string>, i: nat, steps: seq<FilterParams>, p: Parsers)
    requires AllValid(steps, p) && Known(steps) && Encodes(argv, i, steps)
    ensures ParseFrom(argv, i, p) == Some(steps)
    decreases |steps|
  {
    if |steps| == 0 {
      assert i == |argv|;
    } else {
      var f := steps[0];
      EncodedHead(argv, i, steps);
      ParseEncoded(argv, i + |f.args| + 1, steps[1..], p);
      ReadToken(argv, i, f, p);
      assert [f] + steps[1..] == steps;
      assert Prepended([f], Some(steps[1..])) == Some(steps);
    }
  }

  /** Validated steps name known filters. */
  lemma {:induction false} ValidKnown(steps: seq<FilterParams>, p: Parsers)
    requires AllValid(steps, p)
    ensures Known(steps)
    decreases |steps|
  {
    if |steps| > 0 {
      ArityAgrees(steps[0].kind, steps[0].args, p);
      ValidKnown(steps[1..], p);
    }
  }

  /** Reading back the command line of validated steps gives the same
      steps, whatever tokens precede them. */
  lemma ParseUnparse(head: seq<string>, steps: seq<FilterParams>, p: Parsers)
    requires AllValid(steps, p)
    ensures Known(steps)
    ensures ParseFrom(head + Unparse(steps), |head|, p) == Some(steps)
  {
    ValidKnown(steps, p);
    UnparseEncodes(head, steps);
    ParseEncoded(head + Unparse(steps), |head|, steps, p);
  }

  /** What `parse_arguments` yields: the input and output names and the
      filters, or nothing. */
  datatype Parsed = Parsed(input: string, output: string, steps: seq<FilterParams>)

  function Parse(argv: seq<string>, p: Parsers): (r: Option<Parsed>)
    ensures |argv| < 3 ==> r == None
    ensures |argv| == 3 ==> r == Some(Parsed(argv[1], argv[2], []))
    ensures r.Some? ==> r.value.input == argv[1] && r.value.output == argv[2]
    ensures r.Some? ==> Tokens(r.value.steps) == |argv| - 3 && AllValid(r.value.steps, p)
  {
    if |argv| < 3 then None
    else
      match ParseFrom(argv, 3, p)
      case None => None
      case Some(steps) =>
        ParsedConsumesAll(argv, 3, p);
        Some(Parsed(argv[1], argv[2], steps))
  }

  /** `parse_arguments`: fewer than three tokens fail; otherwise the input
      and output names are `argv[1]` and `argv[2]` (a missing `.bmp` only
      warns), and the filters from token 3 on go into a fresh pipeline,
      which is destroyed when one of them cannot be read. */
  method ParseArguments(argv: seq<string>, p: Parsers) returns (input: string, output: string, pipeline: FilterPipeline?)
    requires forall k :: 0 <= k < |argv| ==> NoNul(argv[k])
    ensures |argv| >= 3 ==> input == argv[1] && output == argv[2]
    ensures pipeline != null <==> Parse(argv, p).Some?
    ensures pipeline != null ==> fresh(pipeline) && pipeline.Valid() && Parse(argv, p) == Some(Parsed(input, output, pipeline.steps))
  {
    input, output := "", "";
    if |argv| < 3 {
      return input, output, null;
    }
    input := argv[1];
    output := argv[2];
    pipeline := new FilterPipeline();
    var ok := AddFilters(pipeline, argv, p);
    if !ok {
      pipeline := null;
    }
  }

  /** The loop of `parse_arguments`: the cursor walks the filters from
      token 3, adding each to the pipeline and moving past its arguments;
      the first one that cannot be read or is rejected makes it fail. */
  method AddFilters(pipeline: FilterPipeline, argv: seq<string>, p: Parsers) returns (ok: bool)
    requires 3 <= |argv| && forall k :: 0 <= k < |argv| ==> NoNul(argv[k])
    requires pipeline.Valid() && pipeline.steps == []
    modifies pipeline
    ensures pipeline.Valid()
    ensures ok <==> ParseFrom(argv, 3, p).Some?
    ensures ok ==> ParseFrom(argv, 3, p) == Some(pipeline.steps)
  {
    if ParseFrom(argv, 3, p).Some? {
      assert [] + ParseFrom(argv, 3, p).value == ParseFrom(argv, 3, p).value;
    }
    var i := 3;
    while i < |argv|
      invariant 3 <= i <= |argv|
      invariant pipeline.Valid()
      invariant ParseFrom(argv, 3, p) == Prepended(pipeline.steps, ParseFrom(argv, i, p))
      decreases |argv| - i
    {
      ghost var before := pipeline.steps;
      var next := AddNext(pipeline, argv, i, p);
      if next.None? {
        return false;
      }
      PrependedAssoc(before, pipeline.steps[|before|], ParseFrom(argv, next.value, p));
      i := next.value;
    }
    assert pipeline.steps + [] == pipeline.steps;
    return true;
  }

  /** One turn of the loop of `parse_arguments`: the filter at token i is
      read and added, and the cursor moves past its arguments; nothing when
      it cannot be read or is rejected. */
  method AddNext(pipeline: FilterPipeline, argv: seq<string>, i: nat, p: Parsers) returns (next: Option<nat>)
    requires i < |argv| && NoNul(argv[i]) && pipeline.Valid()
    modifies pipeline
    ensures pipeline.Valid()
    ensures next.None? ==> ParseFrom(argv, i, p) == None
    ensures next.Some? ==> i < next.value <= |argv| && |pipeline.steps| == |old(pipeline.steps)| + 1
    ensures next.Some? ==> pipeline.steps == old(pipeline.steps) + [pipeline.steps[|old(pipeline.steps)|]]
    ensures next.Some? ==> ParseFrom(argv, i, p) == Prepended([pipeline.steps[|old(pipeline.steps)|]], ParseFrom(argv, next.value, p))
  {
    ParseStep(argv, i, p);
    var candidate := ReadFilter(argv, i);
    if candidate.None? {
      return None;
    }
    var f := candidate.value;
    var added := pipeline.AddFilter(f.kind, f.args, p);
    if !added {
      return None;
    }
    return Some(i + |f.args| + 1);
  }

  /** The first half of a turn of the `parse_arguments` loop: token i must
      start with '-'; the rest of it is looked up with
      `filter_name_to_type`, and the filter's arity of tokens must follow. */
  method ReadFilter(argv: seq<string>, i: nat) returns (candidate: Option<FilterParams>)
    requires i < |argv| && NoNul(argv[i])
    ensures candidate == Candidate(argv, i)
  {
    if |argv[i]| > 0 && argv[i][0] == '-' {
      var filterName := argv[i][1..];
      var kind := NameToType(filterName);
      if kind == FilterCount {
        return None;
      }
      var argCount := Arity(kind);
      if i + argCount >= |argv| {
        return None;
      }
      return Some(FilterParams(kind, argv[i + 1..i + 1 + argCount]));
    }
    return None;
  }
}
