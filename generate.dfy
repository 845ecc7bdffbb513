/** The problem generator's naming scheme and defaults: problem `i` of `n`
    is written to `problem_` + `i` zero-padded to the width of `n - 1` +
    the writer's extension. */
module Generate {
  import opened Wrappers
  import opened Ints
  import opened Text
  import opened GeneratorConfigs

  /** `to_padded_string`: the decimal form of `number`, left-filled with
      `'0'` up to `width` characters (`setw` never truncates, and a width
      below the digit count, zero or negative, pads nothing). */
  function ToPaddedString(number: nat, width: int): (s: string)
    ensures |s| == if width > |NatToString(number)| then width else |NatToString(number)|
    ensures s[|s| - |NatToString(number)|..] == NatToString(number)
    ensures forall i :: 0 <= i < |s| - |NatToString(number)| ==> s[i] == '0'
    ensures width <= |NatToString(number)| ==> s == NatToString(number)
  {
    var digits := NatToString(number);
    var fill: nat := if width > |digits| then width - |digits| else 0;
    assert (Repeat('0', fill) + digits)[fill..] == digits;
    Repeat('0', fill) + digits
  }

  /** Read back as a decimal number, the padded string is `number`. */
  lemma PaddedValue(number: nat, width: int)
    ensures IsDigits(ToPaddedString(number, width))
    ensures DigitsValue(ToPaddedString(number, width)) == number
  {
    var digits := NatToString(number);
    var fill: nat := if width > |digits| then width - |digits| else 0;
    DigitsValueLeadingZeros(fill, digits);
    DigitsValueOfNatToString(number);
  }

  const FILE_PREFIX := "problem_"

  /** The name of problem `i` when `n` problems are generated. */
  function FileName(i: nat, n: nat, extension: string): string
    requires i < n
  {
    FILE_PREFIX + ToPaddedString(i, |NatToString(n - 1)|) + extension
  }

  /** The padded number sits between the prefix and the extension, and it
      fills the width of `n - 1`. */
  lemma FileNameParts(i: nat, n: nat, extension: string)
    requires i < n
    ensures var w := |NatToString(n - 1)|;
      |ToPaddedString(i, w)| == w &&
      |FileName(i, n, extension)| == |FILE_PREFIX| + w + |extension| &&
      FileName(i, n, extension)[|FILE_PREFIX|..|FILE_PREFIX| + w] == ToPaddedString(i, w)
  {
    NatToStringLengthMonotone(i, n - 1);
  }

  /** All names of one run have the same length, and different problems
      get different names. */
  lemma FileNamesUniform(i: nat, j: nat, n: nat, extension: string)
    requires i < n && j < n
    ensures |FileName(i, n, extension)| == |FileName(j, n, extension)|
    ensures i != j ==> FileName(i, n, extension) != FileName(j, n, extension)
  {
    var w := |NatToString(n - 1)|;
    FileNameParts(i, n, extension);
    FileNameParts(j, n, extension);
    if i != j {
      PaddedValue(i, w);
      PaddedValue(j, w);
    }
  }

  /** `names` holds the names of the first `|names|` problems of `n`. */
  ghost predicate NamedInOrder(names: seq<string>, n: nat, extension: string)
  {
    |names| <= n && forall k :: 0 <= k < |names| ==> names[k] == FileName(k, n, extension)
  }

  lemma NamedSnoc(names: seq<string>, n: nat, extension: string)
    requires NamedInOrder(names, n, extension) && |names| < n
    ensures NamedInOrder(names + [FileName(|names|, n, extension)], n, extension)
  {
  }

  /** The names of a whole run are uniform in length and distinct. */
  lemma RunNamesUniform(names: seq<string>, extension: string)
    requires forall i :: 0 <= i < |names| ==> names[i] == FileName(i, |names|, extension)
    ensures forall i, j :: 0 <= i < |names| && 0 <= j < |names| ==>
      |names[i]| == |names[j]| && (i != j ==> names[i] != names[j])
  {
    forall i, j | 0 <= i < |names| && 0 <= j < |names|
      ensures |names[i]| == |names[j]| && (i != j ==> names[i] != names[j])
    {
      FileNamesUniform(i, j, |names|, extension);
    }
  }

  /** How the tree generator is built: by average or by minimum number of
      actions. */
  datatype ActionBound = Average(avg: real) | Minimum(min: u32)

  datatype TreeGeneratorArgs = TreeGeneratorArgs(maxDepth: u32, numGoals: u32, actions: ActionBound, maxActions: u32)

  /** `pow(b, e)` on whole numbers, exactly. */
  function Pow(b: nat, e: nat): (p: nat)
    ensures e == 0 ==> p == 1
    ensures b >= 1 ==> p >= 1
  {
    if e == 0 then 1 else b * Pow(b, e - 1)
  }

  /** The checks of the average-bounded `BasicTreeGenerator` constructor,
      which throws `invalid_argument` unless the average is at most
      `max_actions` and there are at most `max_actions ^ max_depth` goals. */
  predicate AverageAccepted(maxDepth: u32, numGoals: u32, avg: real, maxActions: u32)
  {
    avg <= maxActions as real && numGoals <= Pow(maxActions, maxDepth)
  }

  /** The generator `generate` builds from a configuration: by the average
      when given, else by the minimum. `None` when it cannot be built:
      neither bound is given (`min_actions.value()` throws
      `bad_optional_access`), or the average-bounded constructor rejects
      its arguments. */
  function GeneratorFor(c: Config): (r: Option<TreeGeneratorArgs>)
    ensures r.None? <==>
      (c.avgActions.None? && c.minActions.None?) ||
      (c.avgActions.Some? && !AverageAccepted(c.maxDepth, c.numGoals, c.avgActions.value, c.maxActions))
    ensures r.Some? ==>
      r.value.maxDepth == c.maxDepth && r.value.numGoals == c.numGoals && r.value.maxActions == c.maxActions
    ensures r.Some? && c.avgActions.Some? ==> r.value.actions == Average(c.avgActions.value)
    ensures r.Some? && c.avgActions.None? ==> r.value.actions == Minimum(c.minActions.value)
  {
    if c.avgActions.Some? then
      if AverageAccepted(c.maxDepth, c.numGoals, c.avgActions.value, c.maxActions) then
        Some(TreeGeneratorArgs(c.maxDepth, c.numGoals, Average(c.avgActions.value), c.maxActions))
      else None
    else if c.minActions.Some? then Some(TreeGeneratorArgs(c.maxDepth, c.numGoals, Minimum(c.minActions.value), c.maxActions))
    else None
  }

  /** An average above `max_actions`, or more goals than the tree can
      hold, leaves no generator, so `Generate` names no file; the limits
      themselves are accepted. */
  lemma GeneratorRejections()
    ensures GeneratorFor(Config(4, 10, Some(5.0), None, 3)).None?
    ensures GeneratorFor(Config(2, 10, Some(1.5), None, 3)).None?
    ensures GeneratorFor(Config(2, 9, Some(3.0), None, 3)).Some?
  {
  }

  /** `generate` without the random problems and the writes: the generator
      it builds and the file name of each problem, in order. One problem
      and the simple preset stand in for absent arguments. A configuration
      the generator cannot be built from throws before any file is
      named. */
  method Generate(numProblems: Option<u32>, config: Option<Config>, extension: string)
    returns (generator: Option<TreeGeneratorArgs>, names: seq<string>)
    ensures generator == GeneratorFor(if config.Some? then config.value else SIMPLE)
    ensures generator.None? ==> names == []
    ensures generator.Some? ==> |names| == if numProblems.Some? then numProblems.value else 1
    ensures forall i :: 0 <= i < |names| ==> names[i] == FileName(i, |names|, extension)
    ensures forall i, j :: 0 <= i < |names| && 0 <= j < |names| ==>
      |names[i]| == |names[j]| && (i != j ==> names[i] != names[j])
  {
    var n: nat := if numProblems.Some? then numProblems.value else 1;
    var c := if config.Some? then config.value else SIMPLE;
    generator := GeneratorFor(c);
    names := [];
    if generator.None? {
      return;
    }
    for i := 0 to n
      invariant |names| == i && NamedInOrder(names, n, extension)
    {
      var padded := ToPaddedString(i, |NatToString(n - 1)|);
      var fileName := FILE_PREFIX + padded;
      fileName := fileName + extension;
      NamedSnoc(names, n, extension);
      names := names + [fileName];
    }
    RunNamesUniform(names, extension);
  }

  /** With no arguments, one problem named with no padding beyond its
      single digit, from the simple preset by average. */
  lemma GenerateDefaults(extension: string)
    ensures FileName(0, 1, extension) == FILE_PREFIX + "0" + extension
    ensures GeneratorFor(SIMPLE) == Some(TreeGeneratorArgs(4, 10, Average(1.5), 3))
  {
    assert NatToString(0) == "0";
  }
}
