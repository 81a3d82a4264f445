/** Generic facts about sequences of sequences, used for text built by repeated `+=`. */
module Sequences {

  /** The pieces one after another, as repeated `+=` builds them. */
  function Concat<T>(parts: seq<seq<T>>): seq<T>
    decreases |parts|
  {
    if parts == [] then [] else Concat(parts[..|parts| - 1]) + parts[|parts| - 1]
  }

  /** Adding one piece at the end appends it to the concatenation. */
  lemma ConcatSnoc<T>(parts: seq<seq<T>>, last: seq<T>)
    ensures Concat(parts + [last]) == Concat(parts) + last
  {
    assert (parts + [last])[..|parts|] == parts;
  }

  /** Concatenation distributes over appending lists of pieces. */
  lemma {:induction false} ConcatAppend<T>(a: seq<seq<T>>, b: seq<seq<T>>)
    ensures Concat(a + b) == Concat(a) + Concat(b)
    decreases |b|
  {
    if b == [] {
      assert a + b == a;
    } else {
      var u := b[..|b| - 1];
      ConcatAppend(a, u);
      assert (a + b)[..|a + b| - 1] == a + u;
    }
  }

  /** One piece, with what comes before and after it. */
  lemma {:induction false} ConcatSplit<T>(parts: seq<seq<T>>, i: nat)
    requires i < |parts|
    ensures Concat(parts) == Concat(parts[..i]) + parts[i] + Concat(parts[i + 1..])
    decreases |parts|
  {
    var n := |parts|;
    if i == n - 1 {
      assert parts[i + 1..] == [];
    } else {
      var init, rest := parts[..n - 1], parts[i + 1..];
      ConcatSplit(init, i);
      assert init[..i] == parts[..i];
      assert forall k :: 0 <= k < |rest| - 1 ==> rest[k] == init[i + 1 + k];
      assert rest[..|rest| - 1] == init[i + 1..];
      calc {
        Concat(parts);
        Concat(init) + parts[n - 1];
        Concat(parts[..i]) + parts[i] + Concat(init[i + 1..]) + parts[n - 1];
        Concat(parts[..i]) + parts[i] + (Concat(rest[..|rest| - 1]) + rest[|rest| - 1]);
        Concat(parts[..i]) + parts[i] + Concat(rest);
      }
    }
  }

  /** Regrouping a four-part concatenation. */
  lemma AppendRegroup<T>(h: seq<T>, a: seq<T>, b: seq<T>, c: seq<T>)
    ensures h + (a + b + c) == h + a + b + c
  {
  }

  /** Regrouping five fields joined by a separator when the middle one is split across two halves. */
  lemma JoinedHalvesRegroup<T>(f1: seq<T>, f2: seq<T>, left: seq<T>, gap: seq<T>, right: seq<T>, f4: seq<T>, f5: seq<T>, sep: seq<T>)
    ensures (f1 + sep + f2 + sep + left + gap) + (right + sep + f4 + sep + f5)
      == f1 + sep + f2 + sep + (left + gap + right) + sep + f4 + sep + f5
  {
  }
}
