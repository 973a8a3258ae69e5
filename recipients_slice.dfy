/**
 * The recipient store: the recipient list with its loading flag and last
 * error, and the reducers that replace, extend and prune the list.
 */
module RecipientsSlice {
  import opened Wrappers
  import opened Seqs
  import opened Types

  /** How many records carry exactly the email `e`. */
  function EmailCount(rs: seq<Recipient>, e: string): nat {
    multiset(Map(rs, (r: Recipient) => r.email))[e]
  }

  /** `filter(r => r.email !== e)`: the comparison is exact, case included. */
  function WithoutEmail(rs: seq<Recipient>, e: string): (r: seq<Recipient>)
    ensures IsSubsequence(r, rs)
    ensures forall j :: 0 <= j < |r| ==> r[j].email != e
    ensures forall j :: 0 <= j < |rs| && rs[j].email != e ==> rs[j] in r
  {
    FilterSubsequence(rs, (x: Recipient) => x.email != e);
    Filter(rs, (x: Recipient) => x.email != e)
  }

  /** Removing an email no record has changes nothing; removing twice is removing once. */
  lemma WithoutEmailNoMatch(rs: seq<Recipient>, e: string)
    ensures (forall j :: 0 <= j < |rs| ==> rs[j].email != e) ==> WithoutEmail(rs, e) == rs
    ensures WithoutEmail(WithoutEmail(rs, e), e) == WithoutEmail(rs, e)
  {
    if forall j :: 0 <= j < |rs| ==> rs[j].email != e {
      FilterKeepsAll(rs, (x: Recipient) => x.email != e);
    }
    var once := WithoutEmail(rs, e);
    FilterKeepsAll(once, (x: Recipient) => x.email != e);
  }

  /** Exactly the records with the email go. */
  lemma WithoutEmailCount(rs: seq<Recipient>, e: string)
    ensures |WithoutEmail(rs, e)| == |rs| - EmailCount(rs, e)
  {
    var keep := (x: Recipient) => x.email != e;
    var drop := (x: Recipient) => x.email == e;
    FilterPartition(rs, drop, keep);
    assert |multiset(Filter(rs, drop))| + |multiset(Filter(rs, keep))| == |multiset(rs)|;
    FilterKeyCount(rs, (r: Recipient) => r.email, e, drop);
  }

  /** The store's state and its reducers. */
  class RecipientsStore {
    var recipients: seq<Recipient>
    var loading: bool
    var error: Option<string>

    /** The initial state: no record, not loading, no error. */
    constructor ()
      ensures recipients == [] && !loading && error == None
    {
      recipients, loading, error := [], false, None;
    }

    /** `setRecipients`: the list is replaced wholesale. */
    method SetRecipients(rs: seq<Recipient>)
      modifies this
      ensures recipients == rs
      ensures loading == old(loading) && error == old(error)
    {
      recipients := rs;
    }

    /** `addRecipient`: pushed at the end, even when its email is already there. */
    method AddRecipient(r: Recipient)
      modifies this
      ensures recipients == old(recipients) + [r]
      ensures loading == old(loading) && error == old(error)
    {
      recipients := recipients + [r];
    }

    /** `removeRecipient`: every record with exactly that email goes. */
    method RemoveRecipient(e: string)
      modifies this
      ensures recipients == WithoutEmail(old(recipients), e)
      ensures |recipients| == |old(recipients)| - EmailCount(old(recipients), e)
      ensures loading == old(loading) && error == old(error)
    {
      WithoutEmailCount(recipients, e);
      recipients := WithoutEmail(recipients, e);
    }
  }
}
