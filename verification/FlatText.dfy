/** A text cut into chunks of one length, of which only the last may be shorter. */
module FlatText {
  import opened Bytes
  import opened Division

  predicate Regular(texts: seq<seq<byte>>, cl: nat) {
    && cl > 0 && texts != []
    && |texts[|texts| - 1]| <= cl
    && forall n :: 0 <= n < |texts| - 1 ==> |texts[n]| == cl
  }

  lemma RegularFits(texts: seq<seq<byte>>, cl: nat)
    requires Regular(texts, cl)
    ensures forall n :: 0 <= n < |texts| ==> |texts[n]| <= cl
  {
  }

  /** The chunks, one after the other. */
  function Join(texts: seq<seq<byte>>): seq<byte> {
    if texts == [] then [] else texts[0] + Join(texts[1..])
  }

  /** Position `i` lies in the chunk of its quotient, at its remainder. */
  predicate Inside(texts: seq<seq<byte>>, cl: nat, i: nat)
    requires cl > 0
  {
    Quotient(i, cl) < |texts| && Remainder(i, cl) < |texts[Quotient(i, cl)]|
  }

  lemma {:induction false} JoinLength(texts: seq<seq<byte>>, cl: nat)
    requires Regular(texts, cl)
    ensures |Join(texts)| == Multiple(|texts| - 1, cl) + |texts[|texts| - 1]|
  {
    if |texts| == 1 {
      assert Join(texts[1..]) == [];
    } else {
      JoinLength(texts[1..], cl);
    }
  }

  lemma {:induction false} JoinAt(texts: seq<seq<byte>>, cl: nat, i: nat)
    requires Regular(texts, cl)
    ensures i < |Join(texts)| <==> Inside(texts, cl, i)
    ensures i < |Join(texts)| ==> Join(texts)[i] == texts[Quotient(i, cl)][Remainder(i, cl)]
  {
    if |texts| == 1 {
      assert Join(texts[1..]) == [];
    }
    if i >= cl && |texts| > 1 {
      JoinAt(texts[1..], cl, i - cl);
    }
  }
}
