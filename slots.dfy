/**
 * Keys of Streamlit's per-session state dictionary, which survives the
 * top-to-bottom rerun of the script on every interaction, and the
 * `if key not in st.session_state: ...` guard that writes a key once.
 */
module Slots {
  import opened Wrappers

  /** One key of the session dictionary: absent, or present with a value. */
  datatype Slot<V> = Absent | Present(value: V)

  /** One rerun's pass over a write-once guard: `offer` is the value the
      rerun would store (None when that rerun does not reach the
      assignment, or raises before it); only an absent key takes it. */
  function Offer<V>(slot: Slot<V>, offer: Option<V>): (r: Slot<V>)
    ensures slot.Present? ==> r == slot
    ensures slot.Absent? ==> (r.Present? <==> offer.Some?) && (r.Present? ==> r.value == offer.value)
  {
    if slot.Absent? && offer.Some? then Present(offer.value) else slot
  }

  /** The key after a sequence of reruns, one offer each. */
  function OfferEach<V>(slot: Slot<V>, offers: seq<Option<V>>): Slot<V>
    decreases |offers|
  {
    if offers == [] then slot else OfferEach(Offer(slot, offers[0]), offers[1..])
  }

  /** A key that is present is never overwritten by later reruns. */
  lemma {:induction false} PresentStays<V>(slot: Slot<V>, offers: seq<Option<V>>)
    requires slot.Present?
    ensures OfferEach(slot, offers) == slot
    decreases |offers|
  {
    if offers != [] {
      PresentStays(slot, offers[1..]);
    }
  }

  /** With no offer at all, an absent key stays absent. */
  lemma {:induction false} NoOfferStaysAbsent<V>(offers: seq<Option<V>>)
    requires forall k :: 0 <= k < |offers| ==> offers[k].None?
    ensures OfferEach(Absent, offers) == Absent
    decreases |offers|
  {
    if offers != [] {
      NoOfferStaysAbsent(offers[1..]);
    }
  }

  /** An absent key ends up holding the FIRST value offered to it. */
  lemma {:induction false} FirstOfferWins<V>(offers: seq<Option<V>>, k: nat)
    requires k < |offers| && offers[k].Some?
    requires forall j :: 0 <= j < k ==> offers[j].None?
    ensures OfferEach(Absent, offers) == Present(offers[k].value)
    decreases k
  {
    if k == 0 {
      PresentStays(Present(offers[0].value), offers[1..]);
    } else {
      FirstOfferWins(offers[1..], k - 1);
    }
  }
}
