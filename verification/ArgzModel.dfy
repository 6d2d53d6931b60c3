/** Argz vectors: strings packed end to end, each with its NUL. */
module ArgzModel {
  import opened CStrings

  predicate CleanAll(es: seq<string>) { forall k | 0 <= k < |es| :: Clean(es[k]) }

  /** The bytes of a vector with these entries. */
  function Flat(es: seq<string>): string {
    if es == [] then "" else es[0] + [NUL] + Flat(es[1..])
  }

  /** Where entry `k` begins; entry `|es|` would begin at the end. */
  function Start(es: seq<string>, k: nat): nat
    requires k <= |es|
  {
    if k == 0 then 0 else Start(es, k - 1) + |es[k - 1]| + 1
  }

  lemma {:induction false} FlatAppend(a: seq<string>, b: seq<string>)
    ensures Flat(a + b) == Flat(a) + Flat(b)
  {
    if a == [] {
      assert a + b == b;
    } else {
      assert (a + b)[1..] == a[1..] + b;
      FlatAppend(a[1..], b);
    }
  }

  lemma FlatOne(e: string)
    ensures Flat([e]) == e + [NUL]
  {}

  lemma FlatSnoc(es: seq<string>, k: nat)
    requires k < |es|
    ensures Flat(es[..k + 1]) == Flat(es[..k]) + es[k] + [NUL]
  {
    assert es[..k + 1] == es[..k] + [es[k]];
    FlatAppend(es[..k], [es[k]]);
    FlatOne(es[k]);
  }

  lemma {:induction false} StartIs(es: seq<string>, k: nat)
    requires k <= |es|
    ensures |Flat(es[..k])| == Start(es, k)
  {
    if k > 0 {
      StartIs(es, k - 1);
      FlatSnoc(es, k - 1);
    }
  }

  lemma StartEnd(es: seq<string>)
    ensures Start(es, |es|) == |Flat(es)|
  {
    assert es[..|es|] == es;
    StartIs(es, |es|);
  }

  lemma {:induction false} StartIncreases(es: seq<string>, j: nat, k: nat)
    requires j <= k <= |es|
    ensures Start(es, j) + (k - j) <= Start(es, k)
  {
    if j < k { StartIncreases(es, j, k - 1); }
  }

  lemma FlatSplit(es: seq<string>, k: nat)
    requires k <= |es|
    ensures Flat(es) == Flat(es[..k]) + Flat(es[k..])
  {
    assert es == es[..k] + es[k..];
    FlatAppend(es[..k], es[k..]);
  }

  /** A vector around one of its entries. */
  lemma FlatAround(es: seq<string>, k: nat)
    requires k < |es|
    ensures Flat(es) == Flat(es[..k]) + (es[k] + [NUL] + Flat(es[k + 1..]))
  {
    FlatSplit(es, k);
    var xs := es[k..];
    assert xs[0] == es[k];
    assert xs[1..] == es[k + 1..];
  }

  /** The bytes of entry `k`, position by position. */
  lemma EntryAt(es: seq<string>, k: nat, i: nat)
    requires k < |es| && i <= |es[k]|
    ensures Start(es, k) + i < |Flat(es)|
    ensures Flat(es)[Start(es, k) + i] == if i < |es[k]| then es[k][i] else NUL
  {
    FlatAround(es, k);
    StartIs(es, k);
  }

  /** Every position lies in an entry. */
  lemma {:induction false} InEntry(es: seq<string>, p: nat, n: nat) returns (k: nat)
    requires n <= |es| && p < Start(es, n)
    ensures k < n && Start(es, k) <= p <= Start(es, k) + |es[k]|
  {
    if p >= Start(es, n - 1) {
      k := n - 1;
    } else {
      k := InEntry(es, p, n - 1);
    }
  }

  // ---------------------------------------------------------------- any vector has entries

  /** What a vector must be to be read at all: empty, or ended by a NUL. */
  predicate WellFormed(v: string) { v == "" || v[|v| - 1] == NUL }

  /** The first NUL at or after `p`. */
  function NulAt(v: string, p: nat): (n: nat)
    requires p < |v| && WellFormed(v)
    ensures p <= n < |v| && v[n] == NUL
    decreases |v| - p
  {
    if v[p] == NUL then p else NulAt(v, p + 1)
  }

  lemma {:induction false} NulAtIsFirst(v: string, p: nat)
    requires p < |v| && WellFormed(v)
    ensures forall i | p <= i < NulAt(v, p) :: v[i] != NUL
    decreases |v| - p
  {
    if v[p] != NUL { NulAtIsFirst(v, p + 1); }
  }

  function Entries(v: string): seq<string>
    requires WellFormed(v)
  {
    if v == "" then []
    else
      var n := NulAt(v, 0);
      [v[..n]] + Entries(v[n + 1..])
  }

  /** Reading a vector loses nothing. */
  lemma {:induction false} FlatEntries(v: string)
    requires WellFormed(v)
    ensures Flat(Entries(v)) == v
  {
    if v != "" {
      var n := NulAt(v, 0);
      var rest := Entries(v[n + 1..]);
      FlatEntries(v[n + 1..]);
      FlatAppend([v[..n]], rest);
      FlatOne(v[..n]);
      Rejoin(v, n);
    }
  }

  lemma {:induction false} EntriesClean(v: string)
    requires WellFormed(v)
    ensures CleanAll(Entries(v))
  {
    if v != "" {
      var n := NulAt(v, 0);
      EntriesClean(v[n + 1..]);
      NulAtIsFirst(v, 0);
    }
  }

  lemma Rejoin(v: string, n: nat)
    requires n < |v| && v[n] == NUL
    ensures v[..n] + [NUL] + v[n + 1..] == v
  {}

  lemma {:induction false} FlatWellFormed(es: seq<string>)
    ensures WellFormed(Flat(es))
  {
    if es != [] { FlatWellFormed(es[1..]); }
  }

  /** NulAt from anywhere inside entry `k` finds that entry's NUL. */
  lemma NulOfEntry(es: seq<string>, k: nat, p: nat)
    requires CleanAll(es) && k < |es| && Start(es, k) <= p <= Start(es, k) + |es[k]|
    ensures p < |Flat(es)| && WellFormed(Flat(es))
    ensures NulAt(Flat(es), p) == Start(es, k) + |es[k]|
  {
    FlatWellFormed(es);
    EntryAt(es, k, p - Start(es, k));
    EntryAt(es, k, |es[k]|);
    NulAtIsFirst(Flat(es), p);
    var n := NulAt(Flat(es), p);
    if n < Start(es, k) + |es[k]| {
      EntryAt(es, k, n - Start(es, k));
    }
  }

  /** Packing strings and reading them back gives the same strings: the entries of a
      vector are unique. */
  lemma {:induction false} EntriesFlat(es: seq<string>)
    requires CleanAll(es)
    ensures WellFormed(Flat(es)) && Entries(Flat(es)) == es
  {
    FlatWellFormed(es);
    if es != [] {
      EntriesFlat(es[1..]);
      NulOfEntry(es, 0, 0);
      FirstEntry(Flat(es), es[0], Flat(es[1..]));
    }
  }

  lemma FirstEntry(v: string, e: string, rest: string)
    requires v == e + [NUL] + rest && WellFormed(v) && NulAt(v, 0) == |e|
    ensures WellFormed(rest) && Entries(v) == [e] + Entries(rest)
  {
    assert v[..|e|] == e;
    assert v[|e| + 1..] == rest;
  }
}
