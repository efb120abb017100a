/**
 Question construction: how one record of the trivia provider's `results`
 array becomes the question the quiz shows. The HTML-entity decoder is a
 caller-supplied function and the random shuffle of the options is a
 caller-supplied rearrangement of positions.
 */
module Questions {

  /** One record of the provider's `results` array, exactly as received. */
  datatype RawQuestion = RawQuestion(question: string, correctAnswer: string, incorrectAnswers: seq<string>)

  /** A question as the quiz keeps it: decoded text plus the order in which its options are shown. */
  datatype Question = Question(question: string, correctAnswer: string, incorrectAnswers: seq<string>, allAnswers: seq<string>)

  /** The positions 0 .. k-1 in order. */
  function Positions(k: nat): (r: seq<nat>)
    ensures |r| == k
    ensures forall i :: 0 <= i < k ==> r[i] == i
  {
    seq(k, i => i)
  }

  /** `perm` rearranges the positions 0 .. k-1: each of them occurs in it exactly once. */
  predicate IsShuffle(perm: seq<nat>, k: nat) {
    multiset(perm) == multiset(Positions(k))
  }

  predicate InRange(idx: seq<nat>, k: nat) {
    forall i :: 0 <= i < |idx| ==> idx[i] < k
  }

  lemma ShuffleShape(perm: seq<nat>, k: nat)
    requires IsShuffle(perm, k)
    ensures |perm| == k
    ensures InRange(perm, k)
  {
    assert |multiset(perm)| == |multiset(Positions(k))|;
    forall i | 0 <= i < |perm|
      ensures perm[i] < k
    {
      assert perm[i] in multiset(perm);
      assert perm[i] in Positions(k);
    }
  }

  /** The elements of `base` at the positions listed in `idx`, in that order. */
  function Pick(base: seq<string>, idx: seq<nat>): (r: seq<string>)
    requires InRange(idx, |base|)
    ensures |r| == |idx|
    ensures forall i :: 0 <= i < |idx| ==> r[i] == base[idx[i]]
  {
    seq(|idx|, i requires 0 <= i < |idx| => base[idx[i]])
  }

  /** Taking out position j of `b` takes exactly one copy of `b[j]` out of its multiset. */
  lemma RemoveAt<T>(b: seq<T>, j: nat)
    requires j < |b|
    ensures multiset(b) == multiset(b[..j] + b[j+1..]) + multiset{b[j]}
  {
    assert b == b[..j] + [b[j]] + b[j+1..];
    assert multiset(b) == multiset(b[..j]) + multiset{b[j]} + multiset(b[j+1..]);
  }

  lemma Cancel<T>(m1: multiset<T>, m2: multiset<T>, x: T)
    requires m1 + multiset{x} == m2 + multiset{x}
    ensures m1 == m2
  {
    assert m1 == (m1 + multiset{x}) - multiset{x};
    assert m2 == (m2 + multiset{x}) - multiset{x};
  }

  /** Leaving position j out of the picked positions leaves its element out of the picked ones. */
  lemma PickWithout(base: seq<string>, b: seq<nat>, j: nat)
    requires InRange(b, |base|)
    requires j < |b|
    ensures InRange(b[..j] + b[j+1..], |base|)
    ensures multiset(Pick(base, b)) == multiset(Pick(base, b[..j] + b[j+1..])) + multiset{base[b[j]]}
  {
    var c := b[..j] + b[j+1..];
    assert forall i :: 0 <= i < |c| ==> c[i] == if i < j then b[i] else b[i + 1];
    var p := Pick(base, b);
    assert Pick(base, c) == p[..j] + p[j+1..];
    RemoveAt(p, j);
  }

  /** Two rearrangements stay rearrangements of each other once a common element is taken out of each. */
  lemma WithoutCommon(a: seq<nat>, b: seq<nat>, j: nat)
    requires multiset(a) == multiset(b)
    requires 0 < |a| && j < |b| && b[j] == a[0]
    ensures multiset(a[1..]) == multiset(b[..j] + b[j+1..])
  {
    RemoveAt(a, 0);
    RemoveAt(b, j);
    assert a[..0] + a[1..] == a[1..];
    Cancel(multiset(a[1..]), multiset(b[..j] + b[j+1..]), a[0]);
  }

  /** Picking along two rearrangements of the same positions yields the same elements. */
  lemma {:induction false} PickRespectsRearrangement(base: seq<string>, a: seq<nat>, b: seq<nat>)
    requires InRange(a, |base|) && InRange(b, |base|)
    requires multiset(a) == multiset(b)
    ensures multiset(Pick(base, a)) == multiset(Pick(base, b))
  {
    if a == [] {
      assert |multiset(b)| == 0;
    } else {
      assert a[0] in multiset(b);
      var j :| 0 <= j < |b| && b[j] == a[0];
      WithoutCommon(a, b, j);
      PickWithout(base, a, 0);
      PickWithout(base, b, j);
      assert a[..0] + a[1..] == a[1..];
      PickRespectsRearrangement(base, a[1..], b[..j] + b[j+1..]);
    }
  }

  /** The options in shuffled order: position i shows `base[perm[i]]`. */
  function Shuffle(base: seq<string>, perm: seq<nat>): (r: seq<string>)
    requires IsShuffle(perm, |base|)
    ensures |r| == |base|
    ensures multiset(r) == multiset(base)
  {
    ShuffleShape(perm, |base|);
    assert Pick(base, Positions(|base|)) == base;
    PickRespectsRearrangement(base, perm, Positions(|base|));
    Pick(base, perm)
  }

  /** Every incorrect answer passed through the decoder, order kept. */
  function DecodeAll(decode: string -> string, xs: seq<string>): (r: seq<string>)
    ensures |r| == |xs|
    ensures forall i :: 0 <= i < |xs| ==> r[i] == decode(xs[i])
  {
    seq(|xs|, i requires 0 <= i < |xs| => decode(xs[i]))
  }

  /**
   Decode the prompt and every answer, and present the correct answer
   together with the incorrect ones in the order `perm` chooses.
   */
  function BuildQuestion(raw: RawQuestion, decode: string -> string, perm: seq<nat>): (r: Question)
    requires IsShuffle(perm, 1 + |raw.incorrectAnswers|)
    ensures r.question == decode(raw.question)
    ensures r.correctAnswer == decode(raw.correctAnswer)
    ensures r.incorrectAnswers == DecodeAll(decode, raw.incorrectAnswers)
    ensures |r.allAnswers| == 1 + |raw.incorrectAnswers|
    ensures multiset(r.allAnswers) == multiset([r.correctAnswer] + r.incorrectAnswers)
    ensures r.correctAnswer in r.allAnswers
  {
    var correct := decode(raw.correctAnswer);
    var incorrect := DecodeAll(decode, raw.incorrectAnswers);
    var all := Shuffle([correct] + incorrect, perm);
    assert correct in multiset([correct] + incorrect);
    Question(decode(raw.question), correct, incorrect, all)
  }

  /** One rearrangement per record, each of the right size. */
  predicate ShufflesFit(raws: seq<RawQuestion>, perms: seq<seq<nat>>) {
    && |perms| == |raws|
    && forall i :: 0 <= i < |raws| ==> IsShuffle(perms[i], 1 + |raws[i].incorrectAnswers|)
  }

  /** The provider's records in order, each turned into a question. */
  function BuildQuestions(raws: seq<RawQuestion>, decode: string -> string, perms: seq<seq<nat>>): (r: seq<Question>)
    requires ShufflesFit(raws, perms)
    ensures |r| == |raws|
    ensures forall i :: 0 <= i < |raws| ==> r[i] == BuildQuestion(raws[i], decode, perms[i])
  {
    seq(|raws|, i requires 0 <= i < |raws| => BuildQuestion(raws[i], decode, perms[i]))
  }

  /** Every built question offers its correct answer and its incorrect ones, each as often as it occurs in the record. */
  lemma BuiltQuestionsOfferEveryAnswer(raws: seq<RawQuestion>, decode: string -> string, perms: seq<seq<nat>>, i: nat)
    requires ShufflesFit(raws, perms)
    requires i < |raws|
    ensures var q := BuildQuestions(raws, decode, perms)[i];
      && |q.allAnswers| == 1 + |raws[i].incorrectAnswers|
      && multiset(q.allAnswers) == multiset([decode(raws[i].correctAnswer)] + DecodeAll(decode, raws[i].incorrectAnswers))
  {
  }
}
