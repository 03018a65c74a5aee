/** Small facts about sequences built entry by entry. */
module Seqs {
  /** A sequence of two given entries. */
  lemma SeqOfTwo<T>(d: seq<T>, e0: T, e1: T)
    requires |d| == 2 && d[0] == e0 && d[1] == e1
    ensures d == [e0, e1]
  {
  }

  /** A sequence of four given entries. */
  lemma SeqOfFour<T>(d: seq<T>, e0: T, e1: T, e2: T, e3: T)
    requires |d| == 4 && d[0] == e0 && d[1] == e1 && d[2] == e2 && d[3] == e3
    ensures d == [e0, e1, e2, e3]
  {
  }

  /** Two halves that agree entry by entry with the two halves of `res` make up `res`. */
  lemma JoinHalves<T>(lo: seq<T>, hi: seq<T>, res: seq<T>)
    requires |lo| == |hi| && |res| == 2 * |lo|
    requires forall j :: 0 <= j < |lo| ==> lo[j] == res[j] && hi[j] == res[|lo| + j]
    ensures lo + hi == res
  {
  }
}
