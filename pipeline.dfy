/** The filter pipeline of pipeline.c: an ordered list of filter steps, each
    holding its arguments as the command line spelled them, checked when it
    is added and run in order on one image until a filter fails. */
module Pipeline {
  import opened Wrappers
  import opened Images
  import opened Externals
  import opened Utils
  import Filters
  import Convolution
  import Median
  import Blur
  import ExtraFilters
  import Mosaic

  /** `FilterType`. `FilterCount` is also what an unknown name maps to. */
  datatype FilterType =
    | FilterCrop | FilterGrayscale | FilterNegative | FilterSharpen | FilterEdge
    | FilterMedian | FilterBlur | FilterCrystallize | FilterGlass | FilterMosaic
    | FilterCount

  /** A C `int`. */
  newtype Int32 = x: int | -0x8000_0000 <= x < 0x8000_0000

  /** `atoi` and `atof`: how an argument string reads as a number. Both are
      library calls whose values the model does not compute; validation and
      application read the same strings with the same functions. */
  datatype Parsers = Parsers(atoi: string -> Int32, atof: string -> real)

  /** One node of the list without its `next` link; `arg_count` is |args|. */
  datatype FilterParams = FilterParams(kind: FilterType, args: seq<string>)

  /** The C conversion of an `int` to the `uint32_t` parameters of
      `filter_crop`: modulo 2^32. */
  function U32(v: Int32): (u: nat)
    ensures u < 0x1_0000_0000
    ensures v >= 0 ==> u == v as int
  {
    (v as int) % 0x1_0000_0000
  }

  // ---------------------------------------------------------------------
  // Names
  // ---------------------------------------------------------------------

  /** `filter_type_to_name`: the display name of a filter. */
  function TypeToName(kind: FilterType): string
  {
    match kind
    case FilterCrop => "Crop"
    case FilterGrayscale => "Grayscale"
    case FilterNegative => "Negative"
    case FilterSharpen => "Sharpening"
    case FilterEdge => "Edge Detection"
    case FilterMedian => "Median Filter"
    case FilterBlur => "Gaussian Blur"
    case FilterCrystallize => "Crystallize"
    case FilterGlass => "Glass Distortion"
    case FilterMosaic => "Mosaic"
    case FilterCount => "Unknown"
  }

  /** Display names tell the filters apart, and no real filter is shown as
      "Unknown". */
  lemma TypeNamesDistinct(a: FilterType, b: FilterType)
    ensures a != b ==> TypeToName(a) != TypeToName(b)
    ensures a != FilterCount ==> TypeToName(a) != "Unknown"
  {
  }

  /** The ten names `filter_name_to_type` compares against, lower case and
      without a dash. */
  function NameOf(kind: FilterType): (s: string)
    requires kind != FilterCount
    ensures 0 < |s| <= 11 && s[0] != '-'
  {
    match kind
    case FilterCrop => "crop"
    case FilterGrayscale => "gs"
    case FilterNegative => "neg"
    case FilterSharpen => "sharp"
    case FilterEdge => "edge"
    case FilterMedian => "med"
    case FilterBlur => "blur"
    case FilterCrystallize => "crystallize"
    case FilterGlass => "glass"
    case FilterMosaic => "mosaic"
  }

  /** The filters in the order `filter_name_to_type` compares their
      names, and `FilterCount` past the last. */
  function ChainAt(k: nat): FilterType
  {
    if k == 0 then FilterCrop
    else if k == 1 then FilterGrayscale
    else if k == 2 then FilterNegative
    else if k == 3 then FilterSharpen
    else if k == 4 then FilterEdge
    else if k == 5 then FilterMedian
    else if k == 6 then FilterBlur
    else if k == 7 then FilterCrystallize
    else if k == 8 then FilterGlass
    else if k == 9 then FilterMosaic
    else FilterCount
  }

  /** The chain from its k-th comparison on: the first filter whose name is
      exactly s, `FilterCount` when none is. */
  function Lookup(s: string, k: nat): FilterType
    decreases 10 - k
  {
    if k >= 10 then FilterCount
    else if NameOf(ChainAt(k)) == s then ChainAt(k)
    else Lookup(s, k + 1)
  }

  /** The whole `strcmp` chain. */
  function Named(s: string): FilterType
  {
    Lookup(s, 0)
  }

  /** Where each filter sits in the chain. */
  function Position(kind: FilterType): (j: nat)
    requires kind != FilterCount
    ensures j < 10 && ChainAt(j) == kind
  {
    match kind
    case FilterCrop => 0
    case FilterGrayscale => 1
    case FilterNegative => 2
    case FilterSharpen => 3
    case FilterEdge => 4
    case FilterMedian => 5
    case FilterBlur => 6
    case FilterCrystallize => 7
    case FilterGlass => 8
    case FilterMosaic => 9
  }

  /** No two filters share a name. */
  lemma NamesDistinct(a: FilterType, b: FilterType)
    requires a != FilterCount && b != FilterCount && a != b
    ensures NameOf(a) != NameOf(b)
  {
  }

  /** Whatever the chain answers from its k-th comparison on is named s. */
  lemma {:induction false} LookupInverse(s: string, k: nat)
    ensures Lookup(s, k) != FilterCount ==> NameOf(Lookup(s, k)) == s
    decreases 10 - k
  {
    if k < 10 && NameOf(ChainAt(k)) != s {
      LookupInverse(s, k + 1);
    }
  }

  /** The chain reaches the j-th comparison when none from the k-th to it
      matched. */
  lemma {:induction false} LookupFinds(s: string, k: nat, j: nat)
    requires k <= j < 10 && NameOf(ChainAt(j)) == s
    requires forall m :: k <= m < j ==> ChainAt(m) != ChainAt(j)
    ensures Lookup(s, k) == ChainAt(j)
    decreases j - k
  {
    if k < j {
      NamesDistinct(ChainAt(k), ChainAt(j));
      LookupFinds(s, k + 1, j);
    }
  }

  /** `strncpy` into the 32-byte buffer keeps at most 31 characters. */
  function Truncated(name: string): (t: string)
    ensures |t| <= 31 && |t| <= |name| && t == name[..|t|]
    ensures |name| <= 31 ==> t == name
  {
    if |name| <= 31 then name else name[..31]
  }

  /** One leading dash removed. */
  function Undashed(s: string): string
  {
    if |s| > 0 && s[0] == '-' then s[1..] else s
  }

  /** What `filter_name_to_type` answers for a name: its first 31
      characters, lower-cased, with one leading dash dropped, looked up
      among the ten names. */
  function KindOf(name: string): (kind: FilterType)
    ensures kind != FilterCount <==>
      exists k :: k != FilterCount && NameOf(k) == Undashed(Lower(Truncated(name)))
    ensures kind != FilterCount ==> NameOf(kind) == Undashed(Lower(Truncated(name)))
  {
    var u := Undashed(Lower(Truncated(name)));
    NamedKnown(u);
    Named(u)
  }

  /** Every filter is found under its name, with or without one dash. */
  lemma NameRoundTrip(kind: FilterType)
    requires kind != FilterCount
    ensures KindOf(NameOf(kind)) == kind
    ensures KindOf("-" + NameOf(kind)) == kind
  {
    var s := NameOf(kind);
    KindOfName(kind);
    NameIsLower(kind);
    NamedNameOf(kind);
    var d := "-" + s;
    assert Truncated(d) == d;
    assert Lower(d) == d by {
      LowerPointwise(d);
      assert forall i :: 1 <= i < |d| ==> d[i] == s[i - 1];
    }
    assert Undashed(d) == s;
  }

  /** Every filter is found under its own name. */
  lemma KindOfName(kind: FilterType)
    requires kind != FilterCount
    ensures KindOf(NameOf(kind)) == kind
  {
    var s := NameOf(kind);
    NameIsLower(kind);
    assert Truncated(s) == s && Undashed(s) == s;
    NamedNameOf(kind);
  }

  /** The ten names are already lower case. */
  lemma NameIsLower(kind: FilterType)
    requires kind != FilterCount
    ensures Lower(NameOf(kind)) == NameOf(kind)
  {
    LowerPointwise(NameOf(kind));
  }

  /** The `strcmp` chain knows no other names: whatever it maps to a
      filter is that filter's name. */
  lemma NamedInverse(s: string)
    ensures Named(s) != FilterCount ==> NameOf(Named(s)) == s
  {
    LookupInverse(s, 0);
  }

  /** The chain knows exactly the ten names. */
  lemma NamedKnown(s: string)
    ensures Named(s) != FilterCount <==> exists k :: k != FilterCount && NameOf(k) == s
    ensures Named(s) != FilterCount ==> NameOf(Named(s)) == s
  {
    NamedInverse(s);
    if k :| k != FilterCount && NameOf(k) == s {
      NamedNameOf(k);
    }
  }

  /** The `strcmp` chain finds each of the ten names. */
  lemma NamedNameOf(kind: FilterType)
    requires kind != FilterCount
    ensures Named(NameOf(kind)) == kind
  {
    LookupFinds(NameOf(kind), 0, Position(kind));
  }

  /** The lookup ignores case. */
  lemma {:induction false} KindOfIgnoresCase(name: string)
    ensures KindOf(Lower(name)) == KindOf(name)
  {
    var t := Truncated(name);
    assert Truncated(Lower(name)) == Lower(t) by {
      LowerPointwise(name);
      LowerPointwise(t);
    }
    LowerIdempotent(t);
  }

  /** Truncation never decides the answer: every name the lookup knows is
      short, so a name longer than twelve characters is unknown. */
  lemma LongNamesUnknown(name: string)
    requires |name| > 12
    ensures KindOf(name) == FilterCount
  {
    var u := Undashed(Lower(Truncated(name)));
    assert |u| > 11;
    NamedInverse(u);
  }

  /** `filter_name_to_type`: the name is copied into a 32-character buffer
      (31 characters and a terminator), lower-cased up to the terminator,
      shifted left over a leading dash, and compared with the known names. */
  method NameToType(name: string) returns (kind: FilterType)
    requires NoNul(name)
    ensures kind == KindOf(name)
  {
    var lowerName := new char[32](_ => 0 as char);
    var n := if |name| < 31 then |name| else 31;
    var i := 0;
    while i < n
      invariant 0 <= i <= n
      invariant forall k :: 0 <= k < i ==> lowerName[k] == name[k]
      invariant forall k :: i <= k < 32 ==> lowerName[k] == 0 as char
    {
      lowerName[i] := name[i];
      i := i + 1;
    }
    assert Truncated(name) == name[..n];
    i := 0;
    while lowerName[i] != 0 as char
      invariant 0 <= i <= n
      invariant forall k :: 0 <= k < i ==> lowerName[k] == ToLower(name[k])
      invariant forall k :: i <= k < n ==> lowerName[k] == name[k]
      invariant forall k :: n <= k < 32 ==> lowerName[k] == 0 as char
      decreases n - i
    {
      lowerName[i] := ToLower(lowerName[i]);
      i := i + 1;
    }
    LowerPointwise(Truncated(name));
    assert lowerName[..n] == Lower(Truncated(name));
    var len := n;
    if lowerName[0] == '-' {
      MoveToFront(lowerName, 1, n);
      len := n - 1;
    }
    kind := Named(lowerName[..len]);
  }

  // ---------------------------------------------------------------------
  // Validation and a single step
  // ---------------------------------------------------------------------

  /** `validate_filter_args`: the argument count each filter needs and the
      bounds its numbers must meet. The edge threshold has no upper bound
      here, although the filter itself rejects one above 1. */
  function Validate(kind: FilterType, args: seq<string>, p: Parsers): (ok: bool)
    ensures kind == FilterCount ==> !ok
    ensures kind in {FilterGrayscale, FilterNegative, FilterSharpen} ==> (ok <==> |args| == 0)
    ensures ok ==> |args| <= 2
    ensures ok && kind == FilterMedian ==> |args| == 1 && p.atoi(args[0]) >= 1 && p.atoi(args[0]) % 2 == 1
  {
    match kind
    case FilterCrop => |args| == 2 && p.atoi(args[0]) > 0 && p.atoi(args[1]) > 0
    case FilterGrayscale => |args| == 0
    case FilterNegative => |args| == 0
    case FilterSharpen => |args| == 0
    case FilterEdge => |args| == 1 && p.atof(args[0]) >= 0.0
    case FilterMedian => |args| == 1 && p.atoi(args[0]) > 0 && p.atoi(args[0]) % 2 == 1
    case FilterBlur => |args| == 1 && p.atof(args[0]) > 0.0
    case FilterCrystallize => |args| == 1 && p.atoi(args[0]) > 1
    case FilterGlass => |args| == 1 && p.atof(args[0]) > 0.0
    case FilterMosaic => |args| == 2 && p.atoi(args[0]) > 0
    case FilterCount => false
  }

  /** One entry of `pipeline_apply` as a value: the filtered image, or
      nothing when the filter returns false (too few arguments count as a
      failure). */
  function Step(r: Raster, env: Env, p: Parsers, f: FilterParams): (o: Option<Raster>)
    requires r.Valid() && Sound(env)
    ensures o.Some? ==> o.value.Valid()
  {
    var args := f.args;
    match f.kind
    case FilterCrop =>
      if |args| >= 2 then Filters.CropTo(r, U32(p.atoi(args[0])), U32(p.atoi(args[1]))) else None
    case FilterGrayscale =>
      Filters.MappedValid(r, Filters.Gray);
      Some(Filters.Mapped(r, Filters.Gray))
    case FilterNegative =>
      Filters.MappedValid(r, Filters.Negate);
      Some(Filters.Mapped(r, Filters.Negate))
    case FilterSharpen => Convolution.Convolve(r, Convolution.SharpenKernel, 3)
    case FilterEdge => if |args| >= 1 then Convolution.Edges(r, p.atof(args[0])) else None
    case FilterMedian => if |args| >= 1 then Median.MedianFiltered(r, p.atoi(args[0]) as int) else None
    case FilterBlur => if |args| >= 1 then Blur.GaussianBlurred(r, env, p.atof(args[0])) else None
    case FilterCrystallize => if |args| >= 1 then ExtraFilters.Crystal(r, env, p.atoi(args[0]) as int) else None
    case FilterGlass => if |args| >= 1 then ExtraFilters.Distorted(r, env, p.atof(args[0])) else None
    case FilterMosaic => if |args| >= 2 then Mosaic.MosaicOf(r, env, p.atoi(args[0]) as int, args[1]) else None
    case FilterCount => None
  }

  /** A validated step always succeeds, except an edge step whose threshold
      is above 1 and a mosaic step whose tile set cannot be loaded. */
  lemma ValidatedStep(r: Raster, env: Env, p: Parsers, f: FilterParams)
    requires r.Valid() && Sound(env) && Validate(f.kind, f.args, p)
    ensures f.kind != FilterEdge && f.kind != FilterMosaic ==> Step(r, env, p, f).Some?
    ensures f.kind == FilterEdge ==> (Step(r, env, p, f).Some? <==> p.atof(f.args[0]) <= 1.0)
    ensures f.kind == FilterMosaic ==>
              (Step(r, env, p, f).Some? <==> Mosaic.TileSetOf(env, f.args[1], p.atoi(f.args[0]) as int).Some?)
  {
  }

  /** `filter_*` called on the image as the switch in `pipeline_apply`
      dispatches it. */
  method ApplyStep(img: Image, env: Env, p: Parsers, f: FilterParams) returns (ok: bool)
    requires img.Valid() && Sound(env)
    modifies img, img.data
    ensures img.Valid()
    ensures img.data == old(img.data) || fresh(img.data)
    ensures Step(old(img.Snapshot()), env, p, f) == if ok then Some(img.Snapshot()) else None
    ensures !ok ==> img.Snapshot() == old(img.Snapshot())
  {
    ok := false;
    var args := f.args;
    match f.kind
    case FilterCrop =>
      if |args| >= 2 {
        var width, height := p.atoi(args[0]), p.atoi(args[1]);
        ok := Filters.Crop(img, U32(width), U32(height));
      }
    case FilterGrayscale =>
      ok := Filters.Grayscale(img);
    case FilterNegative =>
      ok := Filters.Negative(img);
    case FilterSharpen =>
      ok := Convolution.Sharpen(img);
    case FilterEdge =>
      if |args| >= 1 {
        ok := Convolution.EdgeDetection(img, p.atof(args[0]));
      }
    case FilterMedian =>
      if |args| >= 1 {
        ok := Median.MedianFilter(img, p.atoi(args[0]) as int);
      }
    case FilterBlur =>
      if |args| >= 1 {
        ok := Blur.GaussianBlur(img, env, p.atof(args[0]));
      }
    case FilterCrystallize =>
      if |args| >= 1 {
        ok := ExtraFilters.Crystallize(img, env, p.atoi(args[0]) as int);
      }
    case FilterGlass =>
      if |args| >= 1 {
        ok := ExtraFilters.GlassDistortion(img, env, p.atof(args[0]));
      }
    case FilterMosaic =>
      if |args| >= 2 {
        ok := Mosaic.FilterMosaic(img, env, p.atoi(args[0]) as int, args[1]);
      }
    case FilterCount =>
  }

  // ---------------------------------------------------------------------
  // A whole run
  // ---------------------------------------------------------------------

  /** What `pipeline_apply` returns and the image it leaves. */
  datatype Outcome = Outcome(ok: bool, image: Raster)

  /** The steps in order; the first one that fails ends the run with false
      and the image as the steps before it left it. */
  function Run(r: Raster, env: Env, p: Parsers, steps: seq<FilterParams>): (o: Outcome)
    requires r.Valid() && Sound(env)
    ensures o.image.Valid()
    decreases |steps|
  {
    if |steps| == 0 then Outcome(true, r)
    else
      match Step(r, env, p, steps[0])
      case None => Outcome(false, r)
      case Some(next) => Run(next, env, p, steps[1..])
  }

  /** Running s and then t is running s + t: t starts from the image s
      left, and only when s succeeded. */
  lemma {:induction false} RunAppend(r: Raster, env: Env, p: Parsers, s: seq<FilterParams>, t: seq<FilterParams>)
    requires r.Valid() && Sound(env)
    ensures Run(r, env, p, s + t) ==
            (var a := Run(r, env, p, s); if a.ok then Run(a.image, env, p, t) else a)
    decreases |s|
  {
    if |s| == 0 {
      assert s + t == t;
    } else {
      assert (s + t)[1..] == s[1..] + t;
      match Step(r, env, p, s[0])
      case None =>
      case Some(next) => RunAppend(next, env, p, s[1..], t);
    }
  }

  /** A step that fails stops the run there: whatever follows it, the run
      returns false with the image the earlier steps produced. */
  lemma RunStopsAtFailure(r: Raster, env: Env, p: Parsers, s: seq<FilterParams>, f: FilterParams, t: seq<FilterParams>)
    requires r.Valid() && Sound(env)
    requires Run(r, env, p, s).ok && Step(Run(r, env, p, s).image, env, p, f).None?
    ensures Run(r, env, p, s + [f] + t) == Outcome(false, Run(r, env, p, s).image)
  {
    RunAppend(r, env, p, s, [f] + t);
    assert s + [f] + t == s + ([f] + t);
  }

  /** A run succeeds exactly when every step succeeds on the image the
      steps before it left. */
  lemma {:induction false} RunOkIff(r: Raster, env: Env, p: Parsers, steps: seq<FilterParams>)
    requires r.Valid() && Sound(env)
    ensures Run(r, env, p, steps).ok <==>
            forall i :: 0 <= i < |steps| ==>
              Run(r, env, p, steps[..i]).ok && Step(Run(r, env, p, steps[..i]).image, env, p, steps[i]).Some?
    decreases |steps|
  {
    if |steps| > 0 {
      var s := steps[..|steps| - 1];
      var f := steps[|steps| - 1];
      assert steps == s + [f];
      RunAppend(r, env, p, s, [f]);
      RunOkIff(r, env, p, s);
      forall i | 0 <= i < |s|
        ensures steps[..i] == s[..i] && steps[i] == s[i]
      {
      }
    }
  }

  // ---------------------------------------------------------------------
  // The pipeline object
  // ---------------------------------------------------------------------

  /** `FilterPipeline`: the list from `first` to `last` in order, and its
      length `count`. */
  class FilterPipeline {
    var steps: seq<FilterParams>
    var count: int

    /** `count` is the number of nodes. */
    predicate Valid()
      reads this
    {
      count == |steps|
    }

    /** `pipeline_create`: no first or last node, count 0. */
    constructor ()
      ensures Valid() && steps == []
    {
      steps := [];
      count := 0;
    }

    /** `pipeline_clear`: every node released, first and last cleared,
        count 0. */
    method Clear()
      modifies this
      ensures Valid() && steps == []
    {
      steps := [];
      count := 0;
    }

    /** `pipeline_add_filter`: rejected arguments leave the list alone;
        otherwise a node is linked after `last` and `count` goes up by one. */
    method AddFilter(kind: FilterType, args: seq<string>, p: Parsers) returns (ok: bool)
      requires Valid()
      modifies this
      ensures Valid()
      ensures ok <==> Validate(kind, args, p)
      ensures steps == if ok then old(steps) + [FilterParams(kind, args)] else old(steps)
    {
      if !Validate(kind, args, p) {
        return false;
      }
      steps := steps + [FilterParams(kind, args)];
      count := count + 1;
      return true;
    }

    /** `pipeline_apply`: an empty pipeline succeeds without touching the
        image; otherwise the nodes are walked from `first`, and the first
        filter that returns false makes the whole call return false. */
    method Apply(img: Image, env: Env, p: Parsers) returns (ok: bool)
      requires Valid() && img.Valid() && Sound(env)
      modifies img, img.data
      ensures img.Valid()
      ensures Run(old(img.Snapshot()), env, p, steps) == Outcome(ok, img.Snapshot())
    {
      if count == 0 {
        return true;
      }
      ghost var total := Run(img.Snapshot(), env, p, steps);
      var i := 0;
      while i < |steps|
        invariant 0 <= i <= |steps| && img.Valid()
        invariant img.data == old(img.data) || fresh(img.data)
        invariant Run(img.Snapshot(), env, p, steps[i..]) == total
      {
        assert steps[i..][1..] == steps[i + 1..];
        var result := ApplyStep(img, env, p, steps[i]);
        if !result {
          return false;
        }
        i := i + 1;
      }
      return true;
    }
  }

  /** Adding a validated step and applying the pipeline is applying the old
      pipeline and then, if it succeeded, the new step. */
  lemma AddThenRun(r: Raster, env: Env, p: Parsers, steps: seq<FilterParams>, f: FilterParams)
    requires r.Valid() && Sound(env)
    ensures Run(r, env, p, steps + [f]) ==
            (var a := Run(r, env, p, steps);
             if !a.ok then a
             else match Step(a.image, env, p, f)
                  case None => Outcome(false, a.image)
                  case Some(next) => Outcome(true, next))
  {
    RunAppend(r, env, p, steps, [f]);
    var a := Run(r, env, p, steps);
    if a.ok {
      assert [f][1..] == [];
    }
  }
}
