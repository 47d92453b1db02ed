/** A mailbox object that others write between a reader's requests: every write raises its revision. */
module Versions {
  import opened Characters
  import opened GmailText

  datatype Versioned<T> = Gone | Present(revision: string, content: T)

  /** A write raises the revision strictly; a deleted object does not come back. */
  predicate Writes<T(==)>(before: Versioned<T>, after: Versioned<T>) {
    || before == after
    || after.Gone?
    || (before.Present? && DigitsValue(before.revision) < DigitsValue(after.revision))
  }

  predicate Timeline<T(==)>(states: seq<Versioned<T>>) {
    forall i | 0 < i < |states| :: Writes(states[i - 1], states[i])
  }

  lemma {:induction false} RevisionsRise<T>(states: seq<Versioned<T>>, i: nat, j: nat)
    requires Timeline(states) && i <= j < |states| && states[j].Present?
    ensures states[i].Present? && DigitsValue(states[i].revision) <= DigitsValue(states[j].revision)
    ensures DigitsValue(states[i].revision) == DigitsValue(states[j].revision) ==> states[i] == states[j]
  {
    if i < j {
      assert Writes(states[j - 1], states[j]);
      RevisionsRise(states, i, j - 1);
    }
  }

  /** One revision names one content, at whatever two moments it is seen. */
  lemma RevisionPins<T>(states: seq<Versioned<T>>, i: nat, j: nat)
    requires Timeline(states) && i < |states| && j < |states|
    requires states[i].Present? && states[j].Present? && states[i].revision == states[j].revision
    ensures states[i] == states[j]
  {
    if i <= j {
      RevisionsRise(states, i, j);
    } else {
      RevisionsRise(states, j, i);
    }
  }

  /** Reading the same revision before and after means that nothing was written in between. */
  lemma NothingBetween<T>(states: seq<Versioned<T>>, i: nat, k: nat, j: nat)
    requires Timeline(states) && i <= k <= j < |states|
    requires states[i].Present? && states[j].Present? && states[i].revision == states[j].revision
    ensures states[k] == states[i]
  {
    RevisionsRise(states, k, j);
    RevisionsRise(states, i, k);
  }
}
