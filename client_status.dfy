/**
 * The status the client pages derive from a contest's two deadlines, comparing them strictly
 * with the browser clock: open before the registration deadline, ongoing before the
 * submission deadline, over afterwards. The pages differ only in the labels they attach.
 */
module ClientStatus {
  import opened Seqs

  datatype Phase = Open | Ongoing | Ended

  /** Exactly one phase holds at any instant, decided by strict comparisons. */
  function PhaseAt(now: int, reg: int, sub: int): (p: Phase)
    ensures p == Open <==> now < reg
    ensures p == Ongoing <==> reg <= now < sub
    ensures p == Ended <==> reg <= now && sub <= now
  {
    if now < reg then Open else if now < sub then Ongoing else Ended
  }

  function IsPhase<T>(phase: T -> Phase, p: Phase): T -> bool {
    (x: T) => phase(x) == p
  }

  /** The three phase filters of a list split it: their lengths add up to its length. */
  lemma {:induction false} PhasesPartition<T(!new)>(s: seq<T>, phase: T -> Phase)
    ensures |Filter(s, IsPhase(phase, Open))| + |Filter(s, IsPhase(phase, Ongoing))|
          + |Filter(s, IsPhase(phase, Ended))| == |s|
  {
    if |s| > 0 {
      PhasesPartition(s[1..], phase);
    }
  }
}
