/**
 The participant list of one event: the searches the manager runs over it by
 email (`some` when adding, `findIndex` when removing), the `splice` that
 removes one entry, and the per-event "one entry per email" invariant.
 */
module Participants {
  import opened Events

  /** Some participant of `ps` is registered under `email`. */
  ghost predicate HasEmail(ps: seq<Participant>, email: string) {
    exists i :: 0 <= i < |ps| && ps[i].email == email
  }

  /** No email appears twice in `ps`. */
  ghost predicate DistinctEmails(ps: seq<Participant>) {
    forall i, j :: 0 <= i < j < |ps| ==> ps[i].email != ps[j].email
  }

  /** The index of the first participant registered under `email`. */
  ghost function FirstEmailIndex(ps: seq<Participant>, email: string): (i: nat)
    requires HasEmail(ps, email)
    ensures i < |ps| && ps[i].email == email
    ensures forall j :: 0 <= j < i ==> ps[j].email != email
    decreases |ps|
  {
    if ps[0].email == email then 0
    else
      var k :| 0 <= k < |ps| && ps[k].email == email;
      assert ps[1..][k - 1].email == email;
      1 + FirstEmailIndex(ps[1..], email)
  }

  /** `ps` with the entry at index `i` taken out (a one-element splice). */
  function RemoveAt(ps: seq<Participant>, i: nat): (r: seq<Participant>)
    requires i < |ps|
    ensures |r| == |ps| - 1
    ensures forall k :: 0 <= k < i ==> r[k] == ps[k]
    ensures forall k :: i <= k < |r| ==> r[k] == ps[k + 1]
    ensures multiset(r) + multiset{ps[i]} == multiset(ps)
  {
    assert ps == ps[..i] + [ps[i]] + ps[i + 1..];
    ps[..i] + ps[i + 1..]
  }

  /**
   The linear scan behind `participants.some(person => person.email === email)`.
   */
  method SomeHasEmail(ps: seq<Participant>, email: string) returns (found: bool)
    ensures found <==> HasEmail(ps, email)
  {
    var i := 0;
    while i < |ps|
      invariant 0 <= i <= |ps|
      invariant forall j :: 0 <= j < i ==> ps[j].email != email
    {
      if ps[i].email == email {
        return true;
      }
      i := i + 1;
    }
    return false;
  }

  /**
   The linear scan behind `participants.findIndex(person => person.email === email)`:
   the first matching index, or -1 when nobody matches.
   */
  method FindEmailIndex(ps: seq<Participant>, email: string) returns (index: int)
    ensures -1 <= index < |ps|
    ensures index == -1 <==> !HasEmail(ps, email)
    ensures 0 <= index ==> ps[index].email == email
    ensures 0 <= index ==> forall j :: 0 <= j < index ==> ps[j].email != email
    ensures 0 <= index ==> index == FirstEmailIndex(ps, email)
  {
    var i := 0;
    while i < |ps|
      invariant 0 <= i <= |ps|
      invariant forall j :: 0 <= j < i ==> ps[j].email != email
    {
      if ps[i].email == email {
        FirstMatchIsFirstEmailIndex(ps, email, i);
        return i;
      }
      i := i + 1;
    }
    return -1;
  }

  /** Any index that matches `email` with no earlier match is FirstEmailIndex. */
  lemma FirstMatchIsFirstEmailIndex(ps: seq<Participant>, email: string, i: nat)
    requires i < |ps| && ps[i].email == email
    requires forall j :: 0 <= j < i ==> ps[j].email != email
    ensures HasEmail(ps, email) && FirstEmailIndex(ps, email) == i
  {
  }

  /** Appending a participant whose email is not yet present keeps emails distinct. */
  lemma AppendKeepsDistinct(ps: seq<Participant>, p: Participant)
    requires DistinctEmails(ps) && !HasEmail(ps, p.email)
    ensures DistinctEmails(ps + [p])
  {
  }

  /** Taking one entry out of a list with distinct emails keeps them distinct. */
  lemma RemoveAtKeepsDistinct(ps: seq<Participant>, i: nat)
    requires DistinctEmails(ps) && i < |ps|
    ensures DistinctEmails(RemoveAt(ps, i))
  {
  }

  /**
   When emails are distinct, removing the first match removes the only one:
   afterwards nobody in the list has that email.
   */
  lemma RemoveFirstMatchDropsEmail(ps: seq<Participant>, email: string)
    requires DistinctEmails(ps) && HasEmail(ps, email)
    ensures !HasEmail(RemoveAt(ps, FirstEmailIndex(ps, email)), email)
  {
  }

  /**
   Appending a participant with a new email and then removing the first entry
   under that email gives back the original list.
   */
  lemma AppendThenRemoveFirstMatch(ps: seq<Participant>, p: Participant)
    requires !HasEmail(ps, p.email)
    ensures HasEmail(ps + [p], p.email)
    ensures FirstEmailIndex(ps + [p], p.email) == |ps|
    ensures RemoveAt(ps + [p], |ps|) == ps
  {
    var qs := ps + [p];
    assert qs[|ps|].email == p.email;
    forall j | 0 <= j < |ps|
      ensures qs[j].email != p.email
    {
      assert qs[j] == ps[j];
    }
    FirstMatchIsFirstEmailIndex(qs, p.email, |ps|);
    assert qs[..|ps|] == ps;
  }
}
