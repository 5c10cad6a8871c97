/**
 The utilities of `core/core_helpers.py`. The repository keeps three textually
 identical copies of `remove_duplicates_preserve_order` and two of
 `split_message`; each copy here and in the two modules below is the shared
 definition (`Lists.Dedup`, `Chunking.SplitMessage`), and its contract states
 what that copy promises its callers.
 */
module CoreHelpers {
  import opened Outcomes
  import opened Strings
  import opened Lists
  import Chunking

  /**
   No element twice, the same members as the input, listed in order of first
   occurrence (a subsequence of the input), never longer than the input.
   */
  function RemoveDuplicatesPreserveOrder<T(==)>(lst: seq<T>): (r: seq<T>)
    ensures NoDuplicates(r)
    ensures forall i :: 0 <= i < |r| ==> r[i] in lst
    ensures forall i :: 0 <= i < |lst| ==> lst[i] in r
    ensures forall i, j :: 0 <= i < j < |r| ==> FirstIndex(lst, r[i]) < FirstIndex(lst, r[j])
    ensures |r| <= |lst|
    ensures NoDuplicates(lst) ==> r == lst
  {
    DedupFirstOccurrenceOrder(lst);
    if NoDuplicates(lst) then DedupOfDistinct(lst); Dedup(lst) else Dedup(lst)
  }

  /** Running the function on its own output changes nothing. */
  lemma RemoveDuplicatesIdempotent<T>(lst: seq<T>)
    ensures RemoveDuplicatesPreserveOrder(RemoveDuplicatesPreserveOrder(lst)) == RemoveDuplicatesPreserveOrder(lst)
  {
  }

  /** Chunks that concatenate back to the text, each non-empty and at most `maxLength` long. */
  function SplitMessage(text: string, maxLength: int := Chunking.DefaultMaxLength): (r: Result<seq<string>>)
    ensures maxLength == 0 <==> r.Failure?
    ensures r.Success? && maxLength > 0 ==> Chunking.Concat(r.value) == text
    ensures r.Success? ==> forall k :: 0 <= k < |r.value| ==> 0 < |r.value[k]| <= maxLength
    ensures r.Success? ==> forall k :: 0 <= k < |r.value| - 1 ==> |r.value[k]| == maxLength
    ensures r.Success? && text == "" ==> r.value == []
  {
    Chunking.SplitMessage(text, maxLength)
  }

  /** The institutional domain an e-mail address must mention. */
  const SmuDomain: string := "@smu.edu.sg"

  /**
   `validate_credentials`: the domain must occur ANYWHERE in the e-mail (a
   substring test, not a suffix test) and the password must have at least 8
   characters.
   */
  function ValidateCredentials(email: string, password: string): (ok: bool)
    ensures ok <==> (exists i :: OccursAt(email, SmuDomain, i)) && |password| >= 8
  {
    Contains(email, SmuDomain) && |password| >= 8
  }

  /** The domain may sit anywhere: an address that merely contains it passes with a long enough password. */
  lemma DomainNeedNotBeSuffix(local: string, tail: string, password: string)
    requires |password| >= 8
    ensures ValidateCredentials(local + SmuDomain + tail, password)
  {
    var email := local + SmuDomain + tail;
    assert email[|local|..|local| + |SmuDomain|] == SmuDomain;
    assert OccursAt(email, SmuDomain, |local|);
  }

  /** A password of seven characters or fewer is rejected whatever the e-mail. */
  lemma ShortPasswordRejected(email: string, password: string)
    requires |password| < 8
    ensures !ValidateCredentials(email, password)
  {
  }
}

/** The utilities of `core/helper.py`. */
module Helper {
  import opened Outcomes
  import opened Lists
  import Chunking

  function RemoveDuplicatesPreserveOrder<T(==)>(lst: seq<T>): (r: seq<T>)
    ensures NoDuplicates(r)
    ensures forall i :: 0 <= i < |r| ==> r[i] in lst
    ensures forall i :: 0 <= i < |lst| ==> lst[i] in r
    ensures forall i, j :: 0 <= i < j < |r| ==> FirstIndex(lst, r[i]) < FirstIndex(lst, r[j])
    ensures |r| <= |lst|
    ensures NoDuplicates(lst) ==> r == lst
  {
    DedupFirstOccurrenceOrder(lst);
    if NoDuplicates(lst) then DedupOfDistinct(lst); Dedup(lst) else Dedup(lst)
  }

  /** Running the function on its own output changes nothing. */
  lemma RemoveDuplicatesIdempotent<T>(lst: seq<T>)
    ensures RemoveDuplicatesPreserveOrder(RemoveDuplicatesPreserveOrder(lst)) == RemoveDuplicatesPreserveOrder(lst)
  {
  }

  /**
   `split_message` with its default `max_length` of 4096, as `send_large_message`
   calls it: every chunk fits the chat transport's limit.
   */
  function SplitMessage(text: string, maxLength: int := Chunking.DefaultMaxLength): (r: Result<seq<string>>)
    ensures maxLength == 0 <==> r.Failure?
    ensures r.Success? && maxLength > 0 ==> Chunking.Concat(r.value) == text
    ensures r.Success? ==> forall k :: 0 <= k < |r.value| ==> 0 < |r.value[k]| <= maxLength
    ensures r.Success? ==> forall k :: 0 <= k < |r.value| - 1 ==> |r.value[k]| == maxLength
    ensures r.Success? && text == "" ==> r.value == []
  {
    Chunking.SplitMessage(text, maxLength)
  }

  /** With the default limit the call always succeeds and no chunk exceeds 4096 characters. */
  lemma DefaultSplitFitsLimit(text: string)
    ensures SplitMessage(text).Success?
    ensures Chunking.Concat(SplitMessage(text).value) == text
    ensures forall k :: 0 <= k < |SplitMessage(text).value| ==> 0 < |SplitMessage(text).value[k]| <= 4096
  {
  }
}

/** The utilities of `src/helper.py`. */
module SrcHelper {
  import opened Lists

  function RemoveDuplicatesPreserveOrder<T(==)>(lst: seq<T>): (r: seq<T>)
    ensures NoDuplicates(r)
    ensures forall i :: 0 <= i < |r| ==> r[i] in lst
    ensures forall i :: 0 <= i < |lst| ==> lst[i] in r
    ensures forall i, j :: 0 <= i < j < |r| ==> FirstIndex(lst, r[i]) < FirstIndex(lst, r[j])
    ensures |r| <= |lst|
    ensures NoDuplicates(lst) ==> r == lst
  {
    DedupFirstOccurrenceOrder(lst);
    if NoDuplicates(lst) then DedupOfDistinct(lst); Dedup(lst) else Dedup(lst)
  }

  /** Running the function on its own output changes nothing. */
  lemma RemoveDuplicatesIdempotent<T>(lst: seq<T>)
    ensures RemoveDuplicatesPreserveOrder(RemoveDuplicatesPreserveOrder(lst)) == RemoveDuplicatesPreserveOrder(lst)
  {
  }
}
