/** Log entries and the shape of a committed log.

    A committed log is a non-empty sequence whose position 0 holds the dummy
    (sentinel) entry and whose indices increase by one from there on. */
module LogEntry {
  import opened Wrappers

  /** An entry of the replicated log. `Entry` carries an opaque payload that
      the manager never inspects; `EmptyContent` is the payload-free entry
      that stands for the last entry captured by a snapshot. */
  datatype Entry<P> =
    | Entry(index: nat, term: nat, payload: P)
    | EmptyContent(index: nat, term: nat)

  /** Indices increase by exactly one from the first entry on. */
  predicate Contiguous<P>(s: seq<Entry<P>>)
  {
    forall k :: 0 <= k < |s| ==> s[k].index == s[0].index + k
  }

  /** The invariant of the committed log: non-empty (the dummy is always
      there) and contiguous. */
  predicate Valid<P>(s: seq<Entry<P>>)
  {
    |s| > 0 && Contiguous(s)
  }

  /** The entry holding index `i`, found by searching from the front. This is
      the meaning of "the log holds index i"; it does not rely on contiguity. */
  function Lookup<P>(s: seq<Entry<P>>, i: int): Option<Entry<P>>
  {
    if |s| == 0 then None
    else if s[0].index == i then Some(s[0])
    else Lookup(s[1..], i)
  }

  /** The search finds an entry of `s` carrying index `i`, and finds nothing
      only when no entry carries it. */
  lemma {:induction false} LookupFinds<P>(s: seq<Entry<P>>, i: int)
    ensures Lookup(s, i).Some? ==> Lookup(s, i).value in s && Lookup(s, i).value.index == i
    ensures Lookup(s, i).None? <==> forall e :: e in s ==> e.index != i
  {
    if |s| > 0 && s[0].index != i {
      LookupFinds(s[1..], i);
      assert s == [s[0]] + s[1..];
    }
  }

  lemma {:induction false} ContiguousSuffix<P>(s: seq<Entry<P>>, a: nat)
    requires Contiguous(s)
    requires a <= |s|
    ensures Contiguous(s[a..])
    ensures a < |s| ==> s[a..][0].index == s[0].index + a
  {
    var t := s[a..];
    forall k | 0 <= k < |t|
      ensures t[k].index == t[0].index + k
    {
      assert t[k] == s[a + k] && t[0] == s[a];
    }
  }

  /** The entry at index `i` of a contiguous sequence, by offset from the
      first index. */
  function At<P>(s: seq<Entry<P>>, i: int): Option<Entry<P>>
  {
    if |s| > 0 && s[0].index <= i < s[0].index + |s| then Some(s[i - s[0].index]) else None
  }

  /** On a contiguous sequence, the search finds index `i` exactly when it
      lies in the held range, and finds it at offset `i - s[0].index`. */
  lemma {:induction false} LookupContiguous<P>(s: seq<Entry<P>>, i: int)
    requires Contiguous(s)
    ensures Lookup(s, i) == At(s, i)
  {
    if |s| > 1 && s[0].index != i {
      ContiguousSuffix(s, 1);
      LookupContiguous(s[1..], i);
    }
  }

  /** `LookupContiguous` for every index at once. */
  lemma LookupIndexed<P>(s: seq<Entry<P>>)
    requires Contiguous(s)
    ensures forall i: int {:trigger Lookup(s, i)} :: Lookup(s, i) == At(s, i)
  {
    forall i: int
      ensures Lookup(s, i) == At(s, i)
    {
      LookupContiguous(s, i);
    }
  }
}
