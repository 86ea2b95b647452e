/**
 The exponential-moving-average teacher: the decay schedule
 alpha(t) = min(1 - 1/(t+1), alphaMax) and the element-wise update
 teacher <- alpha * teacher + (1 - alpha) * student, over exact reals.
 Parameters are a list of tensors, each a flat list of values; the update
 walks teacher and student tensors pairwise and stops at the shorter list.
 */
module Ema {

  /** The decay used at global step `step`. */
  function Decay(step: nat, maxDecay: real): (a: real)
    ensures a == maxDecay || a == 1.0 - 1.0 / (step as real + 1.0)
    ensures a <= maxDecay
    ensures a <= 1.0 - 1.0 / (step as real + 1.0)
    ensures a < 1.0
    ensures 0.0 <= maxDecay ==> 0.0 <= a
    ensures step == 0 && 0.0 <= maxDecay ==> a == 0.0
  {
    var warm := 1.0 - 1.0 / (step as real + 1.0);
    if warm <= maxDecay then warm else maxDecay
  }

  lemma ReciprocalAntitone(x: real, y: real)
    requires 0.0 < x <= y
    ensures 1.0 / y <= 1.0 / x
  {
    assert 1.0 / x - 1.0 / y == (y - x) / (x * y);
  }

  /** The decay never decreases as the global step grows. */
  lemma DecayMonotone(s1: nat, s2: nat, maxDecay: real)
    requires s1 <= s2
    ensures Decay(s1, maxDecay) <= Decay(s2, maxDecay)
  {
    ReciprocalAntitone(s1 as real + 1.0, s2 as real + 1.0);
  }

  /** The schedule saturates: the decay equals the maximum exactly from
      the step where (t + 1) * (1 - alphaMax) reaches 1. For a maximum of 1
      or more neither happens. */
  lemma DecaySaturatesIff(step: nat, maxDecay: real)
    ensures Decay(step, maxDecay) == maxDecay
        <==> (step as real + 1.0) * (1.0 - maxDecay) >= 1.0
  {
    var n := step as real + 1.0;
    var warm := 1.0 - 1.0 / n;
    assert 1.0 / n * n == 1.0;
    if warm >= maxDecay {
      assert 1.0 / n <= 1.0 - maxDecay;
      assert n * (1.0 - maxDecay) >= n * (1.0 / n);
    } else {
      assert 1.0 / n > 1.0 - maxDecay;
      assert n * (1.0 - maxDecay) < n * (1.0 / n);
    }
  }

  /** One value of the update: alpha * teacher + (1 - alpha) * student. */
  function Blend(alpha: real, t: real, s: real): (v: real)
    ensures v - s == alpha * (t - s)
    ensures 0.0 <= alpha <= 1.0 ==> Between(v, t, s)
    ensures alpha == 0.0 ==> v == s
    ensures alpha == 1.0 ==> v == t
  {
    var v := alpha * t + (1.0 - alpha) * s;
    assert v - s == alpha * (t - s);
    assert v - t == (1.0 - alpha) * (s - t);
    assert 0.0 <= alpha <= 1.0 ==> Between(v, t, s) by {
      if 0.0 <= alpha <= 1.0 {
        MulSign(alpha, t - s);
        MulSign(1.0 - alpha, s - t);
      }
    }
    v
  }

  lemma MulSign(a: real, b: real)
    requires 0.0 <= a
    ensures b <= 0.0 ==> a * b <= 0.0
    ensures b >= 0.0 ==> a * b >= 0.0
  {
  }

  /** `v` lies on the segment between `a` and `b`. */
  predicate Between(v: real, a: real, b: real)
  {
    (a <= v <= b) || (b <= v <= a)
  }

  /** `ema_param.mul_(alpha).add_(1 - alpha, param)` on one tensor. */
  function BlendTensor(alpha: real, t: seq<real>, s: seq<real>): (r: seq<real>)
    requires |t| == |s|
    ensures |r| == |t|
    ensures forall j :: 0 <= j < |r| ==> r[j] == Blend(alpha, t[j], s[j])
  {
    seq(|t|, j requires 0 <= j < |t| => Blend(alpha, t[j], s[j]))
  }

  /** The teacher and student tensors that `zip` pairs up have equal shapes. */
  predicate ZipShapesMatch(teacher: seq<seq<real>>, student: seq<seq<real>>)
  {
    forall i :: 0 <= i < |teacher| && i < |student| ==> |teacher[i]| == |student[i]|
  }

  /** `_update_ema_variables`: blends every paired teacher tensor towards
      its student tensor with the decay of the given step; teacher tensors
      beyond the end of the student list are left as they are. The student
      is only read. */
  function UpdateTeacher(teacher: seq<seq<real>>, student: seq<seq<real>>, maxDecay: real, step: nat): (r: seq<seq<real>>)
    requires ZipShapesMatch(teacher, student)
    ensures |r| == |teacher|
    ensures forall i :: 0 <= i < |r| ==> |r[i]| == |teacher[i]|
    ensures ZipShapesMatch(r, student)
    ensures forall i, j :: 0 <= i < |r| && i < |student| && 0 <= j < |r[i]| ==>
      r[i][j] == Blend(Decay(step, maxDecay), teacher[i][j], student[i][j])
    ensures forall i :: |student| <= i < |teacher| ==> r[i] == teacher[i]
    ensures 0.0 <= maxDecay ==>
      forall i, j :: 0 <= i < |r| && i < |student| && 0 <= j < |r[i]| ==>
        Between(r[i][j], teacher[i][j], student[i][j])
    ensures step == 0 && 0.0 <= maxDecay ==>
      forall i :: 0 <= i < |r| && i < |student| ==> r[i] == student[i]
  {
    var alpha := Decay(step, maxDecay);
    var r := seq(|teacher|, i requires 0 <= i < |teacher| =>
      if i < |student| then BlendTensor(alpha, teacher[i], student[i]) else teacher[i]);
    assert step == 0 && 0.0 <= maxDecay ==>
      forall i :: 0 <= i < |r| && i < |student| ==> r[i] == student[i] by {
      if step == 0 && 0.0 <= maxDecay {
        forall i | 0 <= i < |r| && i < |student|
          ensures r[i] == student[i]
        {
          assert |r[i]| == |student[i]|;
          assert forall j :: 0 <= j < |r[i]| ==> r[i][j] == student[i][j];
        }
      }
    }
    r
  }

  /** A single teacher value followed through a run of updates: the k-th
      update blends towards `students[k]` with the decay of `steps[k]`. */
  function Follow(t: real, students: seq<real>, maxDecay: real, steps: seq<nat>): (v: real)
    requires |steps| == |students|
    ensures 0.0 <= maxDecay && (forall k :: 0 <= k < |students| ==> students[k] == t) ==> v == t
    decreases |students|
  {
    if |students| == 0 then t
    else
      var t' := Blend(Decay(steps[0], maxDecay), t, students[0]);
      assert 0.0 <= maxDecay && students[0] == t ==> t' == t;
      Follow(t', students[1..], maxDecay, steps[1..])
  }

  /** Convex-combination invariant: if the teacher value and every student
      value the run sees lie in [lo, hi], so does the teacher value after
      the run. */
  lemma {:induction false} FollowStaysInHull(t: real, students: seq<real>, maxDecay: real, steps: seq<nat>, lo: real, hi: real)
    requires |steps| == |students|
    requires 0.0 <= maxDecay
    requires lo <= t <= hi
    requires forall i :: 0 <= i < |students| ==> lo <= students[i] <= hi
    ensures lo <= Follow(t, students, maxDecay, steps) <= hi
    decreases |students|
  {
    if |students| > 0 {
      var t' := Blend(Decay(steps[0], maxDecay), t, students[0]);
      assert lo <= t' <= hi;
      FollowStaysInHull(t', students[1..], maxDecay, steps[1..], lo, hi);
    }
  }

  /** Because the decay is 0 at step 0, a run whose first update is at step
      0 forgets the teacher's initial value: after the first update the
      teacher is the student, whatever it held before. */
  lemma FirstUpdateForgetsTeacher(t1: real, t2: real, students: seq<real>, maxDecay: real, steps: seq<nat>)
    requires |steps| == |students|
    requires 0.0 <= maxDecay
    requires |students| > 0 && steps[0] == 0
    ensures Follow(t1, students, maxDecay, steps) == Follow(t2, students, maxDecay, steps)
  {
    assert Blend(Decay(0, maxDecay), t1, students[0]) == students[0];
    assert Blend(Decay(0, maxDecay), t2, students[0]) == students[0];
  }

  /** The teacher after a run of `_update_ema_variables` calls: the k-th
      call reads the student parameters `students[k]` at global step
      `steps[k]`. */
  function Train(teacher: seq<seq<real>>, students: seq<seq<seq<real>>>, maxDecay: real, steps: seq<nat>): (r: seq<seq<real>>)
    requires |steps| == |students|
    requires forall k :: 0 <= k < |students| ==> ZipShapesMatch(teacher, students[k])
    ensures |r| == |teacher|
    ensures forall i :: 0 <= i < |r| ==> |r[i]| == |teacher[i]|
    decreases |students|
  {
    if |students| == 0 then teacher
    else
      var next := UpdateTeacher(teacher, students[0], maxDecay, steps[0]);
      assert forall k :: 0 <= k < |students| ==> ZipShapesMatch(next, students[k]) by {
        forall k | 0 <= k < |students|
          ensures ZipShapesMatch(next, students[k])
        {
          assert ZipShapesMatch(teacher, students[k]);
        }
      }
      Train(next, students[1..], maxDecay, steps[1..])
  }

  /** Value `j` of parameter tensor `i` in each student snapshot of a run. */
  function Column(students: seq<seq<seq<real>>>, i: nat, j: nat): (c: seq<real>)
    requires forall k :: 0 <= k < |students| ==> i < |students[k]| && j < |students[k][i]|
    ensures |c| == |students|
    ensures forall k :: 0 <= k < |c| ==> c[k] == students[k][i][j]
  {
    seq(|students|, k requires 0 <= k < |students| => students[k][i][j])
  }

  /** A run of whole-model updates acts on every paired value on its own:
      value `j` of teacher tensor `i` after the run is that value followed
      through the run against value `j` of student tensor `i`. */
  lemma {:induction false} TrainFollowsEachValue(teacher: seq<seq<real>>, students: seq<seq<seq<real>>>,
                                                 maxDecay: real, steps: seq<nat>, i: nat, j: nat)
    requires |steps| == |students|
    requires forall k :: 0 <= k < |students| ==> ZipShapesMatch(teacher, students[k])
    requires i < |teacher| && j < |teacher[i]|
    requires forall k :: 0 <= k < |students| ==> i < |students[k]|
    ensures forall k :: 0 <= k < |students| ==> j < |students[k][i]|
    ensures Train(teacher, students, maxDecay, steps)[i][j]
         == Follow(teacher[i][j], Column(students, i, j), maxDecay, steps)
    decreases |students|
  {
    assert forall k :: 0 <= k < |students| ==> |students[k][i]| == |teacher[i]|;
    if |students| > 0 {
      var next := UpdateTeacher(teacher, students[0], maxDecay, steps[0]);
      forall k | 0 <= k < |students|
        ensures ZipShapesMatch(next, students[k])
      {
        assert ZipShapesMatch(teacher, students[k]);
      }
      TrainFollowsEachValue(next, students[1..], maxDecay, steps[1..], i, j);
      assert Column(students, i, j)[1..] == Column(students[1..], i, j);
      assert next[i][j] == Blend(Decay(steps[0], maxDecay), teacher[i][j], Column(students, i, j)[0]);
    }
  }

  function AbsReal(x: real): (r: real)
    ensures r >= 0.0 && (r == x || r == -x)
  {
    if x < 0.0 then -x else x
  }

  /** One update with a non-negative decay scales the distance to the
      student value by the decay. */
  lemma BlendDistance(a: real, t: real, s: real)
    requires 0.0 <= a
    ensures AbsReal(Blend(a, t, s) - s) == a * AbsReal(t - s)
  {
    MulSign(a, t - s);
    if t - s < 0.0 {
      assert AbsReal(t - s) == s - t;
      assert a * (s - t) == -(a * (t - s));
    }
  }

  /** Against a fixed student value the teacher never moves away from
      it: after any run its distance to the student is at most the initial
      distance, and it never overshoots to the other side. */
  lemma FollowApproaches(t: real, s: real, students: seq<real>, maxDecay: real, steps: seq<nat>)
    requires |steps| == |students|
    requires 0.0 <= maxDecay
    requires forall i :: 0 <= i < |students| ==> students[i] == s
    ensures Between(Follow(t, students, maxDecay, steps), t, s)
    ensures AbsReal(Follow(t, students, maxDecay, steps) - s) <= AbsReal(t - s)
  {
    if t <= s {
      FollowStaysInHull(t, students, maxDecay, steps, t, s);
    } else {
      FollowStaysInHull(t, students, maxDecay, steps, s, t);
    }
  }
}
