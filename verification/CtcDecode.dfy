/** Greedy CTC decoding of a recognizer's per-step class scores. */
module CtcDecode {
  import opened Prelude

  /** The winning class of one step and its score. */
  datatype Pick = Pick(cls: nat, score: real)

  // ----- Arg-max per step -----

  /** `b` is the first position of the row's maximum (0 for an empty row). */
  ghost predicate FirstMax(row: seq<real>, b: nat) {
    if |row| == 0 then b == 0
    else b < |row| && forall j :: 0 <= j < |row| ==> row[j] <= row[b] && (j < b ==> row[j] < row[b])
  }

  lemma FirstMaxUnique(row: seq<real>, a: nat, b: nat)
    requires FirstMax(row, a) && FirstMax(row, b)
    ensures a == b
  {
    assert |row| > 0 ==> row[a] <= row[b] && row[b] <= row[a];
  }

  /** The winner of a row. */
  ghost function Winner(row: seq<real>): (p: Pick)
    ensures FirstMax(row, p.cls) && p.score == if |row| == 0 then 0.0 else row[p.cls]
  {
    if |row| == 0 then Pick(0, 0.0)
    else
      var n := |row| - 1;
      var p := Winner(row[..n]);
      if n == 0 || row[n] > p.score then Pick(n, row[n]) else p
  }

  ghost predicate HasSteps(logits: seq<real>, classes: nat, steps: nat) {
    steps * classes <= |logits|
  }

  function Row(logits: seq<real>, classes: nat, t: nat): seq<real>
    requires HasSteps(logits, classes, t + 1)
  {
    assert t * classes <= (t + 1) * classes;
    logits[t * classes..(t + 1) * classes]
  }

  lemma FewerSteps(logits: seq<real>, classes: nat, t: nat, steps: nat)
    requires t <= steps && HasSteps(logits, classes, steps)
    ensures HasSteps(logits, classes, t)
  {
    assert t * classes <= steps * classes;
  }

  /** The winners of the first `steps` rows. */
  ghost function PathOf(logits: seq<real>, classes: nat, steps: nat): (path: seq<Pick>)
    requires HasSteps(logits, classes, steps)
    ensures |path| == steps
  {
    if steps == 0 then []
    else
      FewerSteps(logits, classes, steps - 1, steps);
      PathOf(logits, classes, steps - 1) + [Winner(Row(logits, classes, steps - 1))]
  }

  // ----- Reference definition: merge repeats, then drop blanks and unknown classes -----

  ghost function Merged(path: seq<Pick>): seq<Pick> {
    var n := |path|;
    if n <= 1 then path
    else Merged(path[..n - 1]) + if path[n - 1].cls == path[n - 2].cls then [] else [path[n - 1]]
  }

  ghost function Known(dict: nat): Pick -> bool {
    (p: Pick) => 0 < p.cls <= dict
  }

  /** What a path says over a dictionary of `dict` characters: class `c` is character `c - 1`, class 0
      is the blank. */
  ghost function Decoded(path: seq<Pick>, dict: nat): seq<Pick> {
    Filter(Merged(path), Known(dict))
  }

  ghost function Classes(path: seq<Pick>): seq<nat> {
    MapSeq(path, (p: Pick) => p.cls)
  }

  /** The characters a list of known picks spells. */
  ghost function Spell(keys: seq<string>, ps: seq<Pick>): string {
    if |ps| == 0 then ""
    else Spell(keys, ps[..|ps| - 1]) +
         var c := ps[|ps| - 1].cls; if 0 < c <= |keys| then keys[c - 1] else ""
  }

  function Mean(xs: seq<real>): real {
    if |xs| == 0 then 0.0 else Sum(xs) / |xs| as real
  }

  ghost function Scores(path: seq<Pick>): seq<real> {
    MapSeq(path, (p: Pick) => p.score)
  }

  lemma {:induction false} SumConcat(a: seq<real>, b: seq<real>)
    ensures Sum(a + b) == Sum(a) + Sum(b)
  {
    if |b| == 0 {
      assert a + b == a;
    } else {
      var n := |b| - 1;
      assert (a + b)[..|a| + n] == a + b[..n];
      SumConcat(a, b[..n]);
    }
  }

  lemma {:induction false} SumBetween(xs: seq<real>, lo: real, hi: real)
    requires forall i :: 0 <= i < |xs| ==> lo <= xs[i] <= hi
    ensures lo * |xs| as real <= Sum(xs) <= hi * |xs| as real
  {
    if |xs| > 0 {
      var n := |xs| - 1;
      SumBetween(xs[..n], lo, hi);
      assert |xs| as real == n as real + 1.0;
      assert lo * (n as real + 1.0) == lo * n as real + lo && hi * (n as real + 1.0) == hi * n as real + hi;
    }
  }

  /** `conf` averages `xs`: zero of nothing, else the number that, taken once per element, makes up their
      sum; so it lies within any bounds they share. */
  ghost predicate Averages(conf: real, xs: seq<real>) {
    && (|xs| == 0 ==> conf == 0.0)
    && conf * |xs| as real == Sum(xs)
    && forall lo: real, hi: real :: |xs| > 0 && Within(xs, lo, hi) ==> lo <= conf <= hi
  }

  ghost predicate Within(xs: seq<real>, lo: real, hi: real) {
    forall i :: 0 <= i < |xs| ==> lo <= xs[i] <= hi
  }

  lemma MeanAverages(xs: seq<real>)
    ensures Averages(Mean(xs), xs)
  {
    var (m, n) := (Mean(xs), |xs| as real);
    assert m * n == Sum(xs);
    forall lo: real, hi: real | |xs| > 0 && Within(xs, lo, hi)
      ensures lo <= m <= hi
    {
      SumBetween(xs, lo, hi);
      Cancel(lo, m, n);
      Cancel(m, hi, n);
    }
  }

  lemma Cancel(a: real, b: real, n: real)
    requires n > 0.0 && a * n <= b * n
    ensures a <= b
  {
    assert a > b ==> (a - b) * n > 0.0;
  }

  /** The text of known picks is what each spells, in order; a pick of class `c` spells entry `c - 1`. */
  lemma {:induction false} SpellConcat(keys: seq<string>, a: seq<Pick>, b: seq<Pick>)
    ensures Spell(keys, a + b) == Spell(keys, a) + Spell(keys, b)
  {
    if |b| == 0 {
      assert a + b == a && Spell(keys, a) + "" == Spell(keys, a);
    } else {
      var n := |b| - 1;
      assert (a + b)[..|a| + n] == a + b[..n];
      SpellConcat(keys, a, b[..n]);
      var last := var c := b[n].cls; if 0 < c <= |keys| then keys[c - 1] else "";
      ConcatAssoc(Spell(keys, a), Spell(keys, b[..n]), last);
    }
  }

  lemma SpellOne(keys: seq<string>, p: Pick)
    requires 0 < p.cls <= |keys|
    ensures Spell(keys, [p]) == keys[p.cls - 1] && Spell(keys, []) == ""
  {
    assert [p][..0] == [] && "" + keys[p.cls - 1] == keys[p.cls - 1];
  }

  // ----- The decoder -----

  /** The inner loop: a strict comparison keeps the first of equal maxima; `None` stands for the
      initial negative infinity. */
  method ArgMax(row: seq<real>) returns (best: nat, bestP: Option<real>)
    ensures FirstMax(row, best)
    ensures bestP == if |row| == 0 then None else Some(row[best])
  {
    best, bestP := 0, None;
    for i := 0 to |row|
      invariant FirstMax(row[..i], best) && bestP == if i == 0 then None else Some(row[best])
    {
      if bestP.None? || row[i] > bestP.value {
        best, bestP := i, Some(row[i]);
      }
    }
    assert row[..|row|] == row;
  }

  /** The winner of step `t`. */
  method BestAt(logits: seq<real>, classes: nat, t: nat) returns (best: nat, bestP: Option<real>)
    requires HasSteps(logits, classes, t + 1)
    ensures var p := PathOf(logits, classes, t + 1)[t];
            best == p.cls && (best != 0 ==> bestP == Some(p.score))
  {
    FewerSteps(logits, classes, t, t + 1);
    best, bestP := ArgMax(Row(logits, classes, t));
    FirstMaxUnique(Row(logits, classes, t), best, Winner(Row(logits, classes, t)).cls);
  }

  /** `ctc_greedy_decode`: the text spelled by the decoded path and the mean score of its characters. */
  method CtcGreedyDecode(logits: seq<real>, steps: nat, classes: nat, keys: seq<string>)
    returns (text: string, conf: real)
    requires |logits| == steps * classes
    ensures text == Spell(keys, Decoded(PathOf(logits, classes, steps), |keys|))
    ensures conf == Mean(Scores(Decoded(PathOf(logits, classes, steps), |keys|)))
    ensures Averages(conf, Scores(Decoded(PathOf(logits, classes, steps), |keys|)))
  {
    text := "";
    var probs: seq<real> := [];
    var prev: Option<nat> := None;
    ghost var path: seq<Pick> := [];
    for t := 0 to steps
      invariant HasSteps(logits, classes, t) && path == PathOf(logits, classes, t)
      invariant prev == if t == 0 then None else Some(path[t - 1].cls)
      invariant text == Spell(keys, Decoded(path, |keys|))
      invariant probs == Scores(Decoded(path, |keys|))
    {
      FewerSteps(logits, classes, t + 1, steps);
      var best, bestP := BestAt(logits, classes, t);
      ghost var p := PathOf(logits, classes, t + 1)[t];
      SaidGrows(keys, path, p);
      if best != 0 && prev != Some(best) && best - 1 < |keys| {
        text := text + keys[best - 1];
        probs := probs + [bestP.value];
      }
      prev := Some(best);
      path := path + [p];
    }
    conf := Mean(probs);
    MeanAverages(probs);
  }

  lemma MergedGrows(path: seq<Pick>, p: Pick)
    ensures Merged(path + [p]) ==
            Merged(path) + if |path| > 0 && path[|path| - 1].cls == p.cls then [] else [p]
  {
    assert (path + [p])[..|path|] == path;
  }

  lemma DecodedGrows(path: seq<Pick>, p: Pick, dict: nat)
    ensures Decoded(path + [p], dict) ==
            if 0 < p.cls <= dict && (|path| == 0 || path[|path| - 1].cls != p.cls) then Decoded(path, dict) + [p]
            else Decoded(path, dict)
  {
    MergedGrows(path, p);
    var add := if |path| > 0 && path[|path| - 1].cls == p.cls then [] else [p];
    FilterConcat(Merged(path), add, Known(dict));
    assert |add| > 0 ==> add[1..] == [];
  }

  /** What one more step adds to the text and to the scores. */
  lemma SaidGrows(keys: seq<string>, path: seq<Pick>, p: Pick)
    ensures var says := 0 < p.cls <= |keys| && (|path| == 0 || path[|path| - 1].cls != p.cls);
            var (was, now) := (Decoded(path, |keys|), Decoded(path + [p], |keys|));
            && Spell(keys, now) == (if says then Spell(keys, was) + keys[p.cls - 1] else Spell(keys, was))
            && Scores(now) == (if says then Scores(was) + [p.score] else Scores(was))
  {
    DecodedGrows(path, p, |keys|);
    if 0 < p.cls <= |keys| {
      SpellGrows(keys, Decoded(path, |keys|), p);
    }
  }

  lemma SpellGrows(keys: seq<string>, ps: seq<Pick>, p: Pick)
    requires 0 < p.cls <= |keys|
    ensures Spell(keys, ps + [p]) == Spell(keys, ps) + keys[p.cls - 1]
    ensures Scores(ps + [p]) == Scores(ps) + [p.score]
  {
    assert (ps + [p])[..|ps|] == ps;
  }

  // ----- Alignments -----

  function Repeat(c: nat, n: nat): seq<nat> {
    seq(n, _ => c)
  }

  /** A choice of repeat counts and blank gaps is a valid alignment of `labels` when every label is
      shown at least once and equal neighbours are kept apart by a blank. */
  ghost predicate ValidSpread(labels: seq<nat>, reps: seq<nat>, gaps: seq<nat>) {
    && |reps| == |labels| && |gaps| == |labels| + 1
    && (forall i :: 0 <= i < |labels| ==> reps[i] > 0 && labels[i] > 0)
    && (forall i :: 0 < i < |labels| && labels[i - 1] == labels[i] ==> gaps[i] > 0)
  }

  /** The path that shows `labels[i]` `reps[i]` times, with `gaps[i]` blanks before it. */
  ghost function Spread(labels: seq<nat>, reps: seq<nat>, gaps: seq<nat>): seq<nat>
    requires |reps| == |labels| && |gaps| == |labels| + 1
  {
    Repeat(0, gaps[0]) +
    if |labels| == 0 then [] else Repeat(labels[0], reps[0]) + Spread(labels[1..], reps[1..], gaps[1..])
  }

  /** Merging across a seam: the right part loses its head when it repeats the left part's last. */
  lemma {:induction false} MergedConcat(a: seq<Pick>, b: seq<Pick>)
    requires |a| > 0 && |b| > 0
    ensures |Merged(b)| > 0 && Merged(b)[0] == b[0]
    ensures Merged(a + b) == Merged(a) + if a[|a| - 1].cls == b[0].cls then Merged(b)[1..] else Merged(b)
  {
    var (c, p) := (b[..|b| - 1], b[|b| - 1]);
    assert b == c + [p];
    ConcatAssoc(a, c, [p]);
    MergedGrows(c, p);
    MergedGrows(a + c, p);
    if c == [] {
      assert a + c == a && b == [p];
    } else {
      MergedConcat(a, c);
      var add := if c[|c| - 1].cls == p.cls then [] else [p];
      assert (Merged(c) + add)[1..] == Merged(c)[1..] + add;
      ConcatAssoc(Merged(a), if a[|a| - 1].cls == b[0].cls then Merged(c)[1..] else Merged(c), add);
    }
  }

  /** A constant run merges to its first pick. */
  lemma {:induction false} MergedRun(a: seq<Pick>, c: nat)
    requires |a| > 0 && forall i :: 0 <= i < |a| ==> a[i].cls == c
    ensures Merged(a) == [a[0]]
  {
    if |a| > 1 {
      MergedRun(a[..|a| - 1], c);
    }
  }

  /** A run of one class decodes to one pick when the class is known and to nothing otherwise, and it
      does not disturb what follows if that starts with another class. */
  lemma DecodedRun(a: seq<Pick>, b: seq<Pick>, c: nat, dict: nat)
    requires forall i :: 0 <= i < |a| ==> a[i].cls == c
    requires |a| > 0 && |b| > 0 ==> b[0].cls != c
    ensures Decoded(a + b, dict) == if |a| > 0 && 0 < c <= dict then [a[0]] + Decoded(b, dict) else Decoded(b, dict)
  {
    if |a| == 0 {
      assert a + b == b;
    } else {
      MergedRun(a, c);
      if |b| == 0 {
        assert a + b == a && Merged(b) == [];
      } else {
        MergedConcat(a, b);
      }
      assert Merged(a + b) == [a[0]] + Merged(b);
      assert ([a[0]] + Merged(b))[1..] == Merged(b);
    }
  }

  /** Every valid alignment of a label sequence over the dictionary decodes back to it. */
  lemma {:induction false} AlignmentDecodes(path: seq<Pick>, labels: seq<nat>, reps: seq<nat>, gaps: seq<nat>, dict: nat)
    requires ValidSpread(labels, reps, gaps) && Classes(path) == Spread(labels, reps, gaps)
    requires forall i :: 0 <= i < |labels| ==> labels[i] <= dict
    ensures Classes(Decoded(path, dict)) == labels
    decreases |labels|
  {
    var g := gaps[0];
    if |labels| == 0 {
      RunsSplit(path, 0, g, []);
      DecodedRun(path[..g], path[g..], 0, dict);
    } else {
      var r := reps[0];
      var next := Spread(labels[1..], reps[1..], gaps[1..]);
      RunsSplit(path, 0, g, Repeat(labels[0], r) + next);
      RunsSplit(path[g..], labels[0], r, next);
      SpreadHead(labels[1..], reps[1..], gaps[1..]);
      AlignmentDecodes(path[g..][r..], labels[1..], reps[1..], gaps[1..], dict);
      DecodedLabel(path[..g], path[g..][..r], path[g..][r..], labels[0], dict);
      HeadTail(labels);
    }
  }

  /** Blanks and then a run of one label say that label before whatever follows. */
  lemma DecodedLabel(blanks: seq<Pick>, run: seq<Pick>, tail: seq<Pick>, c: nat, dict: nat)
    requires (forall i :: 0 <= i < |blanks| ==> blanks[i].cls == 0) && 0 < c <= dict
    requires |run| > 0 && (forall i :: 0 <= i < |run| ==> run[i].cls == c) && (|tail| > 0 ==> tail[0].cls != c)
    ensures Classes(Decoded(blanks + (run + tail), dict)) == [c] + Classes(Decoded(tail, dict))
  {
    DecodedRun(run, tail, c, dict);
    DecodedRun(blanks, run + tail, 0, dict);
    ClassesCons(run[0], Decoded(tail, dict));
  }

  lemma ClassesCons(p: Pick, ps: seq<Pick>)
    ensures Classes([p] + ps) == [p.cls] + Classes(ps)
  {
  }

  /** A path that starts with `n` copies of `c` splits into that run and the rest. */
  lemma RunsSplit(path: seq<Pick>, c: nat, n: nat, rest: seq<nat>)
    requires Classes(path) == Repeat(c, n) + rest
    ensures n <= |path| && path == path[..n] + path[n..] && Classes(path[n..]) == rest
    ensures forall i :: 0 <= i < n ==> path[..n][i].cls == c
    ensures |path[n..]| > 0 ==> path[n..][0].cls == rest[0]
  {
    assert |Classes(path)| == n + |rest|;
    forall i | 0 <= i < |path|
      ensures path[i].cls == if i < n then c else rest[i - n]
    {
      assert path[i].cls == Classes(path)[i];
    }
  }

  lemma SpreadHead(labels: seq<nat>, reps: seq<nat>, gaps: seq<nat>)
    requires ValidSpread(labels, reps, gaps)
    ensures var s := Spread(labels, reps, gaps);
            |s| > 0 ==> s[0] == if gaps[0] > 0 then 0 else if |labels| > 0 then labels[0] else 0
  {
  }

  /** A leading blank says nothing, and a leading repeat says what its successor says. */
  lemma DropHead(p: Pick, tail: seq<Pick>, dict: nat)
    requires p.cls == 0 || (|tail| > 0 && tail[0].cls == p.cls)
    ensures Classes(Decoded([p] + tail, dict)) == Classes(Decoded(tail, dict))
  {
    if |tail| > 0 && tail[0].cls == p.cls {
      MergedConcat([p], tail);
      var rest := Merged(tail)[1..];
      assert Merged(tail) == [tail[0]] + rest;
      assert ([p] + rest)[1..] == rest;
      assert Classes(Decoded([p] + tail, dict)) == (if 0 < p.cls <= dict then [p.cls] else []) + Classes(Filter(rest, Known(dict)));
      assert Classes(Decoded(tail, dict)) == (if 0 < p.cls <= dict then [p.cls] else []) + Classes(Filter(rest, Known(dict)));
    } else {
      DecodedRun([p], tail, 0, dict);
    }
  }

  /** Conversely every path over known classes is a valid alignment of what it decodes to. */
  lemma {:induction false} PathIsAlignment(path: seq<Pick>, dict: nat) returns (reps: seq<nat>, gaps: seq<nat>)
    requires forall i :: 0 <= i < |path| ==> path[i].cls <= dict
    ensures var labels := Classes(Decoded(path, dict));
            ValidSpread(labels, reps, gaps) && Classes(path) == Spread(labels, reps, gaps)
    decreases |path|
  {
    if |path| == 0 {
      reps, gaps := [], [0];
      return;
    }
    var (p, tail) := (path[0], path[1..]);
    assert path == [p] + tail;
    reps, gaps := PathIsAlignment(tail, dict);
    var labels := Classes(Decoded(tail, dict));
    ClassesCons(p, tail);
    assert |tail| > 0 ==> Classes(tail)[0] == tail[0].cls;
    SpreadHead(labels, reps, gaps);
    if p.cls == 0 {
      DropHead(p, tail, dict);
      gaps := SpreadBlank(labels, reps, gaps);
    } else if |tail| > 0 && tail[0].cls == p.cls {
      DropHead(p, tail, dict);
      reps := SpreadRepeat(labels, reps, gaps);
    } else {
      DecodedRun([p], tail, p.cls, dict);
      ClassesCons(p, Decoded(tail, dict));
      reps, gaps := SpreadNew(p.cls, labels, reps, gaps);
    }
  }

  lemma SpreadBlank(labels: seq<nat>, reps: seq<nat>, gaps: seq<nat>) returns (gaps': seq<nat>)
    requires ValidSpread(labels, reps, gaps)
    ensures ValidSpread(labels, reps, gaps')
    ensures Spread(labels, reps, gaps') == [0] + Spread(labels, reps, gaps)
  {
    gaps' := [gaps[0] + 1] + gaps[1..];
    assert Repeat(0, gaps'[0]) == [0] + Repeat(0, gaps[0]) && gaps'[1..] == gaps[1..];
  }

  lemma SpreadRepeat(labels: seq<nat>, reps: seq<nat>, gaps: seq<nat>) returns (reps': seq<nat>)
    requires ValidSpread(labels, reps, gaps) && |labels| > 0 && gaps[0] == 0
    ensures ValidSpread(labels, reps', gaps)
    ensures Spread(labels, reps', gaps) == [labels[0]] + Spread(labels, reps, gaps)
  {
    reps' := [reps[0] + 1] + reps[1..];
    assert Repeat(labels[0], reps'[0]) == [labels[0]] + Repeat(labels[0], reps[0]) && reps'[1..] == reps[1..];
  }

  lemma SpreadNew(c: nat, labels: seq<nat>, reps: seq<nat>, gaps: seq<nat>) returns (reps': seq<nat>, gaps': seq<nat>)
    requires ValidSpread(labels, reps, gaps) && c > 0
    requires |labels| > 0 && labels[0] == c ==> gaps[0] > 0
    ensures ValidSpread([c] + labels, reps', gaps')
    ensures Spread([c] + labels, reps', gaps') == [c] + Spread(labels, reps, gaps)
  {
    reps', gaps' := [1] + reps, [0] + gaps;
    assert Repeat(0, 0) == [] && Repeat(c, 1) == [c];
    assert reps'[1..] == reps && gaps'[1..] == gaps && ([c] + labels)[1..] == labels;
  }
}
