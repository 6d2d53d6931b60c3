/** The argz functions: `__argz_next` of `argz.h` with its two documented loops, and the
    functions under `lgpl/string` that build and change vectors. */
module Argz {
  import opened Options
  import opened CStrings
  import opened ArgzModel
  import opened ArgzText

  /** What a call returns; `Undefined` stands for a read outside the block. */
  datatype Error = Ok | NoMemory | Invalid | Undefined

  // ---------------------------------------------------------------- iterating

  /** `__argz_next`; a pointer is an offset, a null pointer is `None`. */
  function ArgzNext(v: string, entry: Option<nat>): Option<nat>
    requires WellFormed(v)
  {
    match entry
    case Some(p) =>
      var e := if p < |v| then NulAt(v, p) + 1 else p;
      if e >= |v| then None else Some(e)
    case None => if |v| > 0 then Some(0) else None
  }

  /** From any position inside entry `k`, the next entry is number `k + 1`. */
  lemma NextFrom(es: seq<string>, k: nat, p: nat)
    requires CleanAll(es) && k < |es| && Start(es, k) <= p <= Start(es, k) + |es[k]|
    ensures WellFormed(Flat(es))
    ensures ArgzNext(Flat(es), Some(p)) == if k + 1 < |es| then Some(Start(es, k + 1)) else None
  {
    NulOfEntry(es, k, p);
    StartEnd(es);
    if k + 1 < |es| {
      EntryAt(es, k + 1, 0);
    }
  }

  /** Every entry start once, in order. */
  ghost predicate VisitsAll(v: string, visited: seq<nat>)
    requires WellFormed(v)
  {
    |visited| == |Entries(v)| && Visits(Entries(v), visited)
  }

  ghost predicate Visits(es: seq<string>, visited: seq<nat>) {
    |visited| <= |es| && forall k | 0 <= k < |visited| :: visited[k] == Start(es, k)
  }

  /** Where a loop over the entries stands after `n` of them. */
  ghost predicate At(es: seq<string>, n: nat, entry: Option<nat>) {
    && n <= |es|
    && entry == if n < |es| then Some(Start(es, n)) else None
  }

  lemma AtFirst(v: string)
    requires WellFormed(v)
    ensures At(Entries(v), 0, ArgzNext(v, None))
  {}

  lemma AtNext(v: string, n: nat, entry: Option<nat>)
    requires WellFormed(v) && At(Entries(v), n, entry) && entry.Some?
    ensures entry.value < |v| && At(Entries(v), n + 1, ArgzNext(v, entry))
    ensures ArgzNext(v, entry).Some? ==> ArgzNext(v, entry).value > entry.value
  {
    var es := Entries(v);
    FlatEntries(v);
    EntriesClean(v);
    EntryAt(es, n, 0);
    NextFrom(es, n, Start(es, n));
  }

  /** `while ((entry = argz_next (argz, argz_len, entry)))`. */
  method IterateWhile(v: string) returns (visited: seq<nat>)
    requires WellFormed(v)
    ensures VisitsAll(v, visited)
  {
    visited := [];
    AtFirst(v);
    var entry := ArgzNext(v, None);
    while entry.Some?
      invariant At(Entries(v), |visited|, entry) && Visits(Entries(v), visited)
      invariant entry.Some? ==> entry.value < |v|
      decreases if entry.Some? then |v| - entry.value else 0
    {
      AtNext(v, |visited|, entry);
      visited := visited + [entry.value];
      entry := ArgzNext(v, entry);
    }
  }

  /** `for (entry = argz; entry; entry = argz_next (argz, argz_len, entry))`. An empty
      vector whose `argz` is not null is the one input on which this style differs: it
      visits an entry that is not there. */
  method IterateFor(v: string, isNull: bool) returns (visited: seq<nat>)
    requires WellFormed(v) && (isNull ==> v == "")
    ensures VisitsAll(v, visited) <==> isNull || v != ""
    ensures !isNull && v == "" ==> visited == [0]
  {
    visited := [];
    var entry := if isNull then None else Some(0);
    AtFirst(v);
    while entry.Some?
      invariant v != "" ==> At(Entries(v), |visited|, entry) && Visits(Entries(v), visited)
      invariant v == "" && isNull ==> entry.None? && visited == []
      invariant v == "" && !isNull ==> if entry.Some? then entry.value == 0 && visited == [] else visited == [0]
      invariant entry.Some? ==> entry.value <= |v|
      decreases if entry.Some? then |v| + 1 - entry.value else 0
    {
      if v != "" { AtNext(v, |visited|, entry); }
      visited := visited + [entry.value];
      entry := ArgzNext(v, entry);
    }
  }

  function NulCount(v: string): nat {
    if v == "" then 0 else (if v[0] == NUL then 1 else 0) + NulCount(v[1..])
  }

  lemma {:induction false} NulCountClean(e: string, rest: string)
    requires Clean(e)
    ensures NulCount(e + [NUL] + rest) == 1 + NulCount(rest)
  {
    if e == "" {
      assert (e + [NUL] + rest)[1..] == rest;
    } else {
      assert (e + [NUL] + rest)[1..] == e[1..] + [NUL] + rest;
      NulCountClean(e[1..], rest);
    }
  }

  /** A loop over a vector takes as many steps as the vector has NULs. */
  lemma {:induction false} StepsAreNuls(es: seq<string>)
    requires CleanAll(es)
    ensures NulCount(Flat(es)) == |es|
  {
    if es != [] {
      StepsAreNuls(es[1..]);
      NulCountClean(es[0], Flat(es[1..]));
    }
  }

  /** `strlen` of the string at `p`. */
  method Strlen(v: string, p: nat) returns (n: nat)
    requires WellFormed(v) && p < |v|
    ensures p + n == NulAt(v, p)
  {
    n := 0;
    while v[p + n] != NUL
      invariant p + n < |v| && NulAt(v, p) == NulAt(v, p + n)
      decreases |v| - p - n
    {
      n := n + 1;
    }
  }

  /** `__argz_extract` (and, by its length, `__argz_count`): the same starts by another
      loop, one that counts the remaining length down. */
  method Extract(v: string) returns (argv: seq<nat>)
    requires WellFormed(v)
    ensures VisitsAll(v, argv)
  {
    argv := [];
    var argz, len := 0, |v|;
    ghost var es := Entries(v);
    while len > 0
      invariant 0 <= len && argz + len == |v| && |argv| <= |es| && argz == Start(es, |argv|)
      invariant Visits(es, argv)
      decreases len
    {
      PartEnds(v, |argv|, argz);
      var partLen := Strlen(v, argz);
      argv := argv + [argz];
      argz := argz + partLen + 1;
      len := len - (partLen + 1);
    }
    AtEnd(v, |argv|);
  }

  lemma PartEnds(v: string, n: nat, p: nat)
    requires WellFormed(v) && n <= |Entries(v)| && p == Start(Entries(v), n) < |v|
    ensures n < |Entries(v)| && NulAt(v, p) + 1 == Start(Entries(v), n + 1) <= |v|
  {
    var es := Entries(v);
    FlatEntries(v);
    EntriesClean(v);
    StartEnd(es);
    NulOfEntry(es, n, p);
  }

  lemma AtEnd(v: string, n: nat)
    requires WellFormed(v) && n <= |Entries(v)| && Start(Entries(v), n) == |v|
    ensures n == |Entries(v)|
  {
    var es := Entries(v);
    FlatEntries(v);
    StartEnd(es);
    if n < |es| { StartIncreases(es, n, |es|); }
  }

  /** `__argz_stringify`, in place on any buffer at all. */
  method Stringify(a: array<char>, sep: char)
    modifies a
    ensures a[..] == Stringified(old(a[..]), sep)
  {
    var len := a.Length;
    var argz := 0;
    if len > 0 {
      while true
        invariant 0 <= argz && 0 < len && argz + len == a.Length
        invariant forall i | 0 <= i < argz :: a[i] == Stringified(old(a[..]), sep)[i]
        invariant forall i | argz <= i < a.Length :: a[i] == old(a[i])
        decreases len
      {
        var partLen := Strnlen(a, argz, len);
        argz := argz + partLen;
        len := len - partLen;
        if len <= 1 { break; }
        a[argz] := sep;
        argz := argz + 1;
        len := len - 1;
      }
    }
  }

  /** `__strnlen`. */
  method Strnlen(a: array<char>, p: nat, max: nat) returns (n: nat)
    requires p + max <= a.Length
    ensures n <= max && (forall i | p <= i < p + n :: a[i] != NUL) && (n < max ==> a[p + n] == NUL)
  {
    n := 0;
    while n < max && a[p + n] != NUL
      invariant n <= max && forall i | p <= i < p + n :: a[i] != NUL
    {
      n := n + 1;
    }
  }

  /** One entry rewritten, as the inner loop of `__argz_replace` does it; `None` when an
      allocation fails. */
  method ReplaceIn(e: string, str: string, with: string) returns (text: Option<string>)
    requires str != "" && Find(e, str, 0) < |e|
    ensures text.Some? ==> text.value == Replaced(e, str, with, 0)
  {
    var found := Find(e, str, 0);
    var from := Some(found + |str|);
    var memory: bool := *;
    text := if memory then Some(e[0..found]) else None;
    ghost var whole := Replaced(e, str, with, 0);
    PartialFirst(e, str, with, whole);
    while text.Some? && from.Some?
      invariant from.Some? ==> from.value <= |e|
      invariant text.Some? && from.Some? ==> Partial(e, str, with, text.value, from.value, whole)
      invariant text.Some? && from.None? ==> text.value == whole
      decreases text.Some?, if from.Some? then |e| + 1 - from.value else 0
    {
      text, from := ReplaceStep(e, str, with, text.value, from.value, whole);
    }
  }

  /** Append the replacement and the text up to the next match, or up to the end. */
  method ReplaceStep(e: string, str: string, with: string, text0: string, from0: nat, ghost whole: string)
    returns (text: Option<string>, from: Option<nat>)
    requires from0 <= |e| && str != "" && Partial(e, str, with, text0, from0, whole)
    ensures text.Some? && from.Some? ==>
      from0 < from.value <= |e| && Partial(e, str, with, text.value, from.value, whole)
    ensures text.Some? && from.None? ==> text.value == whole
    ensures from.Some? ==> text.Some?
  {
    PartialNext(e, str, with, text0, from0, whole);
    var memory: bool := *;
    if !memory { return None, None; }
    var found := Find(e, str, from0);
    memory := *;
    if !memory { return None, None; }
    var next := text0 + with + e[from0..found];
    if found < |e| {
      return Some(next), Some(found + |str|);
    } else {
      return Some(next), None;
    }
  }

  /** `text` is the start of `whole` up to a match that ends at `from`. */
  ghost predicate Partial(e: string, str: string, with: string, text: string, from: nat, whole: string)
    requires from <= |e| && str != ""
  {
    text + (with + Replaced(e, str, with, from)) == whole
  }

  lemma PartialFirst(e: string, str: string, with: string, whole: string)
    requires str != "" && Find(e, str, 0) < |e| && whole == Replaced(e, str, with, 0)
    ensures Partial(e, str, with, e[0..Find(e, str, 0)], Find(e, str, 0) + |str|, whole)
  {
    ReplacedToMatch(e, str, with, 0);
  }

  lemma PartialNext(e: string, str: string, with: string, text: string, from: nat, whole: string)
    requires from <= |e| && str != "" && Partial(e, str, with, text, from, whole)
    ensures var m := Find(e, str, from);
            if m < |e| then Partial(e, str, with, text + with + e[from..m], m + |str|, whole)
            else text + with + e[from..m] == whole
  {
    var m := Find(e, str, from);
    ReplacedToMatch(e, str, with, from);
    Regroup(text, with, e[from..m], Replaced(e, str, with, m));
  }

  lemma Regroup(a: string, b: string, c: string, d: string)
    ensures a + (b + (c + d)) == a + b + c + d
    ensures d == "" ==> a + b + c + d == a + b + c
  {}

  // ---------------------------------------------------------------- vectors that change

  class Vector {
    /** The bytes in use, whether the pointer to them is null, and `argz_len`. */
    var argz: string
    var isNull: bool
    var len: nat

    /** The length is that of the bytes there are, so a null pointer has length 0. */
    ghost predicate Valid()
      reads this
    {
      WellFormed(argz) && (isNull ==> argz == "") && len == |argz|
    }

    ghost function Contents(): seq<string>
      requires Valid()
      reads this
    {
      Entries(argz)
    }

    constructor ()
      ensures Valid() && Contents() == [] && isNull
    {
      argz, isNull, len := "", true, 0;
    }

    /** `__argz_create`: one pass to size the block, one to fill it. A failure leaves a
        null pointer and does not touch the length. */
    method Create(argv: seq<string>, memory: bool) returns (err: Error)
      requires CleanAll(argv)
      modifies this
      ensures err == if argv == [] || memory then Ok else NoMemory
      ensures Valid() <==> err == Ok || old(len) == 0
      ensures err == Ok ==> Contents() == argv && isNull == (argv == [])
      ensures err != Ok ==> isNull && argz == "" && len == old(len)
    {
      var argc, tlen := 0, 0;
      while argc < |argv|
        invariant argc <= |argv| && tlen == Start(argv, argc)
      {
        tlen := tlen + |argv[argc]| + 1;
        argc := argc + 1;
      }
      StartEnd(argv);
      EntriesFlat(argv);
      argz, isNull := "", true;
      if tlen > 0 {
        if !memory { return NoMemory; }
        var p, ap := "", 0;
        while ap < |argv|
          invariant ap <= |argv| && p == Flat(argv[..ap])
        {
          FlatSnoc(argv, ap);
          p := p + argv[ap] + [NUL];
          ap := ap + 1;
        }
        assert argv[..ap] == argv;
        argz, isNull := p, false;
      }
      len := tlen;
      return Ok;
    }

    /** Pointer, bytes and length are what they were. */
    ghost predicate Unchanged(argz0: string, isNull0: bool, len0: nat)
      reads this
    {
      argz == argz0 && isNull == isNull0 && len == len0
    }

    /** `__argz_append`; `memory` says whether `realloc` succeeds. */
    method Append(buf: string, memory: bool) returns (err: Error)
      requires Valid() && WellFormed(buf)
      modifies this
      ensures Valid() && err == if memory then Ok else NoMemory
      ensures memory ==> argz == old(argz) + buf && !isNull && Contents() == old(Contents()) + Entries(buf)
      ensures !memory ==> Unchanged(old(argz), old(isNull), old(len))
    {
      var newLen := len + |buf|;
      if !memory { return NoMemory; }
      AppendEntries(argz, buf);
      argz, isNull, len := argz + buf, false, newLen;
      return Ok;
    }

    static lemma AppendEntries(v: string, w: string)
      requires WellFormed(v) && WellFormed(w)
      ensures WellFormed(v + w) && Entries(v + w) == Entries(v) + Entries(w)
    {
      FlatEntries(v);
      FlatEntries(w);
      EntriesClean(v);
      EntriesClean(w);
      FlatAppend(Entries(v), Entries(w));
      EntriesFlat(Entries(v) + Entries(w));
    }

    /** `__argz_add`. */
    method Add(str: string, memory: bool) returns (err: Error)
      requires Valid() && Clean(str)
      modifies this
      ensures Valid() && err == if memory then Ok else NoMemory
      ensures memory ==> argz == old(argz) + (str + [NUL]) && Contents() == old(Contents()) + [str]
      ensures !memory ==> Unchanged(old(argz), old(isNull), old(len))
    {
      FlatOne(str);
      EntriesFlat([str]);
      err := Append(str + [NUL], memory);
    }

    /** `argz_delete` of the entry that starts at `entry`. */
    method Delete(entry: Option<nat>, ghost k: nat)
      requires Valid()
      requires entry.Some? ==> k < |Contents()| && entry.value == Start(Contents(), k)
      modifies this
      ensures Valid()
      ensures entry.None? ==> Unchanged(old(argz), old(isNull), old(len))
      ensures entry.Some? ==> Contents() == old(Contents())[..k] + old(Contents())[k + 1..]
      ensures entry.Some? ==> (Contents() == [] ==> isNull)
    {
      if entry.Some? {
        var p := entry.value;
        EntryEnds(argz, Contents(), k);
        var n := Strlen(argz, p);
        var entryLen := n + 1;
        len := len - entryLen;
        var shorter := argz[..p] + argz[p + entryLen..];
        WithoutEntry(argz, Entries(argz), k, p, p + entryLen, shorter);
        argz := shorter;
        if len == 0 {
          isNull := true;
        }
      }
    }

    static lemma FlatWithout(v: string, es: seq<string>, k: nat, p: nat, q: nat)
      requires k < |es| && v == Flat(es) && p == Start(es, k) && q == p + |es[k]| + 1
      ensures q <= |v| && v[..p] + v[q..] == Flat(es[..k] + es[k + 1..])
    {
      var a, x, b := Flat(es[..k]), es[k] + [NUL], Flat(es[k + 1..]);
      FlatAround(es, k);
      StartIs(es, k);
      FlatAppend(es[..k], es[k + 1..]);
      Removed(v, a, x, b, p, q);
    }

    static lemma EntryEnds(v: string, es: seq<string>, k: nat)
      requires WellFormed(v) && es == Entries(v) && k < |es|
      ensures Start(es, k) + |es[k]| < |v| && NulAt(v, Start(es, k)) == Start(es, k) + |es[k]|
    {
      FlatEntries(v);
      EntriesClean(v);
      NulOfEntry(es, k, Start(es, k));
    }

    static lemma WithoutEntry(v: string, es: seq<string>, k: nat, p: nat, q: nat, w: string)
      requires WellFormed(v) && es == Entries(v) && k < |es| && p == Start(es, k) && q == p + |es[k]| + 1
      requires q <= |v| && w == v[..p] + v[q..]
      ensures WellFormed(w) && Entries(w) == es[..k] + es[k + 1..]
    {
      FlatEntries(v);
      EntriesClean(v);
      FlatWithout(v, es, k, p, q);
      EntriesFlat(es[..k] + es[k + 1..]);
    }

    static lemma Removed(v: string, a: string, x: string, b: string, p: nat, q: nat)
      requires v == a + (x + b) && p == |a| && q == p + |x|
      ensures v[..p] + v[q..] == a + b
    {}

    /** `__argz_insert`. A position inside an entry stands for the start of that entry.
        The search for it leaves the block exactly when the position is strictly inside
        the first entry. */
    method Insert(before: Option<int>, entry: string, memory: bool) returns (err: Error, ghost at: nat)
      requires Valid() && Clean(entry)
      modifies this
      ensures err == InsertResult(old(Contents()), before, memory)
      ensures err == Invalid <==> before.Some? && !(0 <= before.value < old(len))
      ensures err == Undefined <==> before.Some? && 0 < before.value < old(len) && Clean(old(argz)[..before.value])
      ensures err != Undefined ==> Valid()
      ensures err == Invalid || err == NoMemory ==> Unchanged(old(argz), old(isNull), old(len))
      ensures err == Ok ==> Contents() == Inserted(old(Contents()), before, entry)
      ensures err == Ok && before.None? ==> at == old(len)
      ensures err == Ok && before.Some? ==> at <= before.value < old(len) && Begins(old(argz), at, before.value)
      ensures err == Ok ==> argz == old(argz)[..at] + (entry + [NUL]) + old(argz)[at..]
    {
      at := len;
      FlatEntries(argz);
      if before.None? {
        InsertedLast(Entries(argz), entry);
        AtTheEnd(argz, entry + [NUL]);
        err := Add(entry, memory);
        return;
      }
      if before.value < 0 || before.value >= len {
        return Invalid, at;
      }
      err, at := InsertBefore(before.value, entry, memory);
    }

    /** The rest of it, for a position inside the block. */
    method InsertBefore(p: nat, entry: string, memory: bool) returns (err: Error, ghost at: nat)
      requires Valid() && Clean(entry) && p < len && |Flat(Contents())| == len
      modifies this
      ensures err == InsertResult(old(Contents()), Some(p), memory)
      ensures err == Undefined <==> p > 0 && Clean(old(argz)[..p])
      ensures err == NoMemory ==> Unchanged(old(argz), old(isNull), old(len))
      ensures err == Ok ==> at <= p && Begins(old(argz), at, p)
      ensures err == Ok ==> argz == old(argz)[..at] + (entry + [NUL]) + old(argz)[at..]
      ensures err != Undefined ==> Valid()
      ensures err == Ok ==> Contents() == Inserted(old(Contents()), Some(p), entry)
    {
      var start := Locate(argz, p);
      at := 0;
      if start.None? { return Undefined, at; }
      at := start.value;
      if !memory { return NoMemory, at; }
      var longer := Grown(argz, p, start.value, entry);
      argz, isNull, len := longer, false, len + |entry| + 1;
      return Ok, at;
    }

    /** The entry that position `p` is in begins at `at`. */
    static predicate Begins(v: string, at: nat, p: nat)
      requires at <= p <= |v|
    {
      (at == 0 || v[at - 1] == NUL) && forall i | at <= i < p :: v[i] != NUL
    }

    /** The bytes with the new entry moved in at `at`. */
    static method Grown(v: string, ghost p: nat, at: nat, e: string) returns (w: string)
      requires WellFormed(v) && p < |v| && Clean(e) && |Flat(Entries(v))| == |v|
      requires at == Start(Entries(v), Holder(Entries(v), p))
      ensures at <= |v| && w == v[..at] + (e + [NUL]) + v[at..]
      ensures |w| == |v| + |e| + 1 && WellFormed(w) && Entries(w) == Inserted(Entries(v), Some(p), e)
    {
      FlatEntries(v);
      EntriesClean(v);
      FlatWith(Entries(v), Holder(Entries(v), p), e);
      InsertedClean(Entries(v), Some(p), e);
      w := v[..at] + (e + [NUL]) + v[at..];
      EntriesFlat(Inserted(Entries(v), Some(p), e));
    }

    static lemma AtTheEnd(v: string, x: string)
      ensures v[..|v|] + x + v[|v|..] == v + x
    {}

    static lemma InsertedLast(es: seq<string>, e: string)
      ensures Inserted(es, None, e) == es + [e]
    {}

    static lemma InsertedClean(es: seq<string>, before: Option<int>, e: string)
      requires before.Some? ==> 0 <= before.value < |Flat(es)|
      requires CleanAll(es) && Clean(e)
      ensures CleanAll(Inserted(es, before, e))
    {}

    /** The start of the entry that position `p` is in, or `None` when the search for it
        leaves the block. */
    static method Locate(v: string, p: nat) returns (at: Option<nat>)
      requires WellFormed(v) && p < |v|
      ensures |Flat(Entries(v))| == |v|
      ensures at == if BacksUp(Entries(v), p) then Some(Start(Entries(v), Holder(Entries(v), p))) else None
      ensures at.None? <==> p > 0 && Clean(v[..p])
      ensures at.Some? ==> at.value <= p && Begins(v, at.value, p)
    {
      ghost var es := Entries(v);
      FlatEntries(v);
      EntriesClean(v);
      HolderHolds(es, p);
      if p == 0 { return Some(0); }
      var start := BackUp(v, p, es, Holder(es, p));
      if start == 0 { return None; }
      return Some(start);
    }

    /** The search: it ends at the start of the entry, or has left the block when it
        reaches the first byte without having met a NUL. */
    static method BackUp(v: string, p: nat, ghost es: seq<string>, ghost k: nat) returns (at: nat)
      requires CleanAll(es) && v == Flat(es) && k < |es| && 0 < p
      requires Start(es, k) <= p <= Start(es, k) + |es[k]|
      ensures at == Start(es, k) <= p <= |v| && Begins(v, at, p)
    {
      at := p;
      EntryAt(es, k, p - Start(es, k));
      if k > 0 { EntryAt(es, k - 1, |es[k - 1]|); }
      while at > 0 && v[at - 1] != NUL
        invariant Start(es, k) <= at <= p && forall i | at <= i < p :: v[i] != NUL
        decreases at
      {
        at := at - 1;
      }
      if at > Start(es, k) {
        EntryAt(es, k, at - 1 - Start(es, k));
      }
    }

    static lemma FlatWith(es: seq<string>, k: nat, e: string)
      requires k <= |es|
      ensures Start(es, k) <= |Flat(es)|
      ensures Flat(es)[..Start(es, k)] + (e + [NUL]) + Flat(es)[Start(es, k)..] == Flat(es[..k] + [e] + es[k..])
    {
      FlatSplit(es, k);
      StartIs(es, k);
      FlatOne(e);
      FlatAppend(es[..k], [e]);
      FlatAppend(es[..k] + [e], es[k..]);
    }

    /** `__argz_add_sep`: add the pieces of a string. The block grows to the size the
        string could need and is filled through a moving pointer; `nlen` loses one for
        each delimiter that ends nothing. A failure overwrites the pointer with null and
        keeps the length, so the vector is lost unless it was empty. */
    method AddSep(s: string, delim: char, memory: bool) returns (err: Error)
      requires Valid() && Clean(s)
      modifies this
      ensures err == if s == "" || memory then Ok else NoMemory
      ensures Valid() <==> err == Ok || old(Contents()) == []
      ensures err == NoMemory ==> isNull && argz == "" && len == old(len)
      ensures err == Ok ==> Contents() == old(Contents()) + Split(s, delim)
      ensures s == "" ==> Unchanged(old(argz), old(isNull), old(len))
    {
      var nlen := |s| + 1;
      if nlen > 1 {
        if !memory {
          argz, isNull := "", true;
          return NoMemory;
        }
        var block: string;
        block, nlen := Fill(argz, s, delim);
        Filled(argz, block, s, delim);
        argz, isNull, len := block, false, len + nlen;
      }
      return Ok;
    }

    /** `__argz_create_sep`: the same pieces in a new block. */
    method CreateSep(s: string, delim: char, memory: bool) returns (err: Error)
      requires Clean(s)
      modifies this
      ensures err == if s == "" || memory then Ok else NoMemory
      ensures Valid() <==> err == Ok || old(len) == 0
      ensures err == NoMemory ==> isNull && argz == "" && len == old(len)
      ensures err == Ok ==> Contents() == Split(s, delim) && (isNull <==> s == "")
    {
      var nlen := |s| + 1;
      if nlen > 1 {
        argz, isNull := "", true;
        if !memory { return NoMemory; }
        var block: string;
        block, nlen := Fill("", s, delim);
        Filled("", block, s, delim);
        argz, isNull := block, false;
        if nlen == 0 { assert false; } // the branch that frees the block is never taken
        len := nlen;
      } else {
        argz, isNull, len := "", true, 0;
      }
      return Ok;
    }

    static lemma Filled(v: string, block: string, s: string, delim: char)
      requires WellFormed(v) && Clean(s) && block == v + Flat(Pieces(s, delim, ""))
      ensures WellFormed(block) && Entries(block) == Entries(v) + Pieces(s, delim, "")
    {
      var ps := Pieces(s, delim, "");
      PiecesClean(s, delim, "");
      EntriesFlat(ps);
      AppendEntries(v, Flat(ps));
    }

    /** The copying loop: from the old bytes to those of the longer vector. */
    static method Fill(argz: string, s: string, delim: char) returns (block: string, nlen: nat)
      requires WellFormed(argz) && Clean(s)
      ensures block == argz + Flat(Pieces(s, delim, "")) && |block| == |argz| + nlen && nlen > 0
    {
      block, nlen := argz, |s| + 1;
      ghost var done, cur, all := [], "", Pieces(s, delim, "");
      var rp := 0;
      assert s[0..] == s;
      while rp < |s|
        invariant rp <= |s| && Clean(cur)
        invariant block == argz + (Flat(done) + cur)
        invariant done + Pieces(s[rp..], delim, cur) == all
        invariant |block| + (|s| - rp) + 1 == |argz| + nlen
      {
        PiecesNext(s, rp, delim, done, cur);
        LastByte(argz, done, cur);
        if s[rp] == delim {
          if |block| > 0 && block[|block| - 1] != NUL {
            EndEntry(argz, done, cur);
            block := block + [NUL];
            done, cur := done + [cur], "";
          } else {
            nlen := nlen - 1;
          }
        } else {
          MoreText(argz, Flat(done), cur, s[rp]);
          block := block + [s[rp]];
          cur := cur + [s[rp]];
        }
        rp := rp + 1;
      }
      EndEntry(argz, done, cur);
      assert s[rp..] == "";
      block := block + [NUL];
    }

    static lemma MoreText(v: string, done: string, cur: string, c: char)
      ensures v + (done + cur) + [c] == v + (done + (cur + [c]))
    {}

    /** What one character does to the pieces still to come. */
    static lemma PiecesNext(s: string, rp: nat, delim: char, done: seq<string>, cur: string)
      requires rp < |s|
      ensures done + Pieces(s[rp..], delim, cur) ==
        if s[rp] != delim then done + Pieces(s[rp + 1..], delim, cur + [s[rp]])
        else if cur == "" then done + Pieces(s[rp + 1..], delim, "")
        else done + [cur] + Pieces(s[rp + 1..], delim, "")
    {}

    static lemma EndEntry(v: string, done: seq<string>, cur: string)
      ensures v + (Flat(done) + cur) + [NUL] == v + (Flat(done + [cur]) + "")
      ensures v + (Flat(done) + cur) + [NUL] == v + Flat(done + [cur])
    {
      FlatAppend(done, [cur]);
      FlatOne(cur);
    }

    /** Whether the byte before the write pointer is a NUL tells whether the entry being
        written is still empty. */
    static lemma LastByte(v: string, done: seq<string>, cur: string)
      requires WellFormed(v) && Clean(cur)
      ensures var block := v + (Flat(done) + cur);
              |block| > 0 && block[|block| - 1] != NUL <==> cur != ""
    {}

    /** `__argz_replace`: replace a substring in every entry. Nothing is copied until the
        first match; a failure leaves the vector alone. The counter grows by one for each
        entry that held a match. */
    method Replace(str: string, with: string) returns (err: Error, count: nat)
      requires Valid() && Clean(str) && Clean(with)
      modifies this
      ensures Valid() && (err == Ok || err == NoMemory)
      ensures str == "" || err != Ok || count == 0 ==> Unchanged(old(argz), old(isNull), old(len))
      ensures str == "" ==> err == Ok && count == 0
      ensures str != "" && err == Ok ==>
        && Contents() == ReplacedAll(old(Contents()), str, with)
        && count == Hits(old(Contents()), str)
    {
      err, count := Ok, 0;
      if str == "" { return; }
      var dst, delayed;
      err, count, dst, delayed := Rewrite(argz, str, with);
      if err == Ok && !delayed {
        argz, isNull, len := dst, false, |dst|;
      }
    }

    /** The loop over the entries of `src`. */
    static method Rewrite(src: string, str: string, with: string)
      returns (err: Error, count: nat, dst: string, delayed: bool)
      requires WellFormed(src) && Clean(with) && str != ""
      ensures err == Ok || err == NoMemory
      ensures err == Ok ==> count == Hits(Entries(src), str) && (delayed <==> count == 0)
      ensures err == Ok && delayed ==> ReplacedAll(Entries(src), str, with) == Entries(src)
      ensures err == Ok && !delayed ==> WellFormed(dst) && Entries(dst) == ReplacedAll(Entries(src), str, with)
    {
      err, count := Ok, 0;
      ghost var es := Entries(src);
      dst, delayed := "", true;
      AtFirst(src);
      var arg := ArgzNext(src, None);
      ghost var i := 0;
      while err == Ok && arg.Some?
        invariant err == Ok || err == NoMemory
        invariant err == Ok ==> At(es, i, arg) && count == Hits(es[..i], str) && (delayed <==> count == 0)
        invariant err == Ok ==> Copied(es, str, with, i, delayed, dst)
        invariant arg.Some? ==> arg.value < |src|
        decreases err == Ok, if arg.Some? then |src| - arg.value else 0
      {
        AtNext(src, i, arg);
        HitsNext(es, str, i);
        var hit;
        err, hit, dst, delayed := RewriteEntry(src, arg.value, str, with, dst, delayed, i);
        count := count + (if hit then 1 else 0);
        arg := ArgzNext(src, arg);
        i := i + 1;
      }
      if err == Ok {
        AllCopied(src, str, with, delayed, dst);
      }
    }

    static lemma AllCopied(src: string, str: string, with: string, delayed: bool, dst: string)
      requires WellFormed(src) && str != "" && Clean(with)
      requires Copied(Entries(src), str, with, |Entries(src)|, delayed, dst)
      ensures Entries(src)[..|Entries(src)|] == Entries(src)
      ensures delayed ==> ReplacedAll(Entries(src), str, with) == Entries(src)
      ensures !delayed ==> WellFormed(dst) && Entries(dst) == ReplacedAll(Entries(src), str, with)
    {
      var es := Entries(src);
      assert es[..|es|] == es;
      EntriesClean(src);
      ReplacedAllClean(es, str, with);
      EntriesFlat(ReplacedAll(es, str, with));
    }

    /** The body of that loop, for the entry at `arg`. */
    static method RewriteEntry(src: string, arg: nat, str: string, with: string, dst0: string, delayed0: bool, ghost i: nat)
      returns (err: Error, hit: bool, dst: string, delayed: bool)
      requires WellFormed(src) && str != "" && i < |Entries(src)| && arg == Start(Entries(src), i) < |src|
      requires Copied(Entries(src), str, with, i, delayed0, dst0)
      ensures err == Ok ==> delayed == (delayed0 && !hit)
      ensures (err == Ok || err == NoMemory) && hit == (Find(Entries(src)[i], str, 0) < |Entries(src)[i]|)
      ensures err == Ok ==> Copied(Entries(src), str, with, i + 1, delayed, dst)
    {
      ghost var es := Entries(src);
      FlatEntries(src);
      EntriesClean(src);
      EntryBytes(es, i, arg);
      var e := src[arg..NulAt(src, arg)];
      err, dst, delayed := Ok, dst0, delayed0;
      hit := Find(e, str, 0) < |e|;
      if hit {
        var to := ReplaceIn(e, str, with);
        if to.None? { return NoMemory, hit, dst, delayed; }
        if delayed {
          FirstCopy(es, str, with, i);
          dst := src[..arg];
          delayed := false;
        }
        NextCopy(es, str, with, i, dst);
        dst := dst + to.value + [NUL];
      } else {
        Untouched(es, str, with, i, delayed, dst);
        if !delayed {
          dst := dst + e + [NUL];
        }
      }
      var memory: bool := *;
      if !delayed && !memory { err := NoMemory; }
    }

    /** What has been copied after `i` entries: nothing while no entry has matched, and
        every entry rewritten from then on. */
    static ghost predicate Copied(es: seq<string>, str: string, with: string, i: nat, delayed: bool, dst: string)
      requires str != ""
    {
      && i <= |es|
      && (delayed ==> forall j | 0 <= j < i :: Replaced(es[j], str, with, 0) == es[j])
      && (!delayed ==> dst == Flat(ReplacedAll(es[..i], str, with)))
    }

    static lemma EntryBytes(es: seq<string>, k: nat, p: nat)
      requires CleanAll(es) && k < |es| && p == Start(es, k)
      ensures WellFormed(Flat(es)) && p < |Flat(es)| && Flat(es)[p..NulAt(Flat(es), p)] == es[k]
    {
      NulOfEntry(es, k, p);
      FlatAround(es, k);
      StartIs(es, k);
      MiddleOf(Flat(es[..k]), es[k], [NUL], Flat(es[k + 1..]));
    }

    static lemma MiddleOf(a: string, x: string, b: string, c: string)
      ensures (a + (x + b + c))[|a|..|a| + |x|] == x
    {}

    static lemma HitsNext(es: seq<string>, str: string, i: nat)
      requires str != "" && i < |es|
      ensures Hits(es[..i + 1], str) == Hits(es[..i], str) + (if Find(es[i], str, 0) < |es[i]| then 1 else 0)
    {
      assert es[..i + 1][..i] == es[..i];
      FoundIffMatches(es[i], str, 0);
    }

    /** At the first match the bytes before it are the entries copied late. */
    static lemma FirstCopy(es: seq<string>, str: string, with: string, i: nat)
      requires str != "" && i < |es| && forall j | 0 <= j < i :: Replaced(es[j], str, with, 0) == es[j]
      ensures Start(es, i) <= |Flat(es)|
      ensures Copied(es, str, with, i, false, Flat(es)[..Start(es, i)])
    {
      assert ReplacedAll(es[..i], str, with) == es[..i];
      FlatSplit(es, i);
      StartIs(es, i);
    }

    static lemma NextCopy(es: seq<string>, str: string, with: string, i: nat, dst: string)
      requires str != "" && i < |es| && Copied(es, str, with, i, false, dst)
      ensures Copied(es, str, with, i + 1, false, dst + Replaced(es[i], str, with, 0) + [NUL])
    {
      var x := Replaced(es[i], str, with, 0);
      assert ReplacedAll(es[..i + 1], str, with) == ReplacedAll(es[..i], str, with) + [x];
      FlatAppend(ReplacedAll(es[..i], str, with), [x]);
      FlatOne(x);
    }

    /** An entry without a match is skipped or copied as it is. */
    static lemma Untouched(es: seq<string>, str: string, with: string, i: nat, delayed: bool, dst: string)
      requires str != "" && i < |es| && Copied(es, str, with, i, delayed, dst)
      requires Find(es[i], str, 0) == |es[i]|
      ensures Copied(es, str, with, i + 1, delayed, if delayed then dst else dst + es[i] + [NUL])
    {
      ReplacedToMatch(es[i], str, with, 0);
      assert es[i][0..|es[i]|] == es[i];
      if !delayed { NextCopy(es, str, with, i, dst); }
    }

    static lemma ReplacedAllClean(es: seq<string>, str: string, with: string)
      requires str != "" && CleanAll(es) && Clean(with)
      ensures CleanAll(ReplacedAll(es, str, with))
    {
      forall k | 0 <= k < |es| ensures Clean(Replaced(es[k], str, with, 0)) {
        ReplacedClean(es[k], str, with, 0);
      }
    }
  }

  /** What `__argz_add_sep` adds for a string. */
  function Split(s: string, delim: char): seq<string> {
    if s == "" then [] else Pieces(s, delim, "")
  }

  /** A failed `__argz_add_sep` on a vector of one entry: a null pointer and a length. */
  method LoseVector() returns (v: Vector)
    ensures fresh(v) && v.isNull && v.len == 2 && !v.Valid()
  {
    v := new Vector();
    var err := v.Add("a", true);
    FlatOne("a");
    FlatEntries(v.argz);
    err := v.AddSep("b", ':', false);
  }

  // ---------------------------------------------------------------- positions

  /** The entry that position `p` is in, its NUL included. */
  function Holder(es: seq<string>, p: nat): (k: nat)
    requires p < |Flat(es)|
    ensures k < |es|
  {
    if p <= |es[0]| then 0 else 1 + Holder(es[1..], p - |es[0]| - 1)
  }

  lemma {:induction false} HolderHolds(es: seq<string>, p: nat)
    requires p < |Flat(es)|
    ensures Start(es, Holder(es, p)) <= p <= Start(es, Holder(es, p)) + |es[Holder(es, p)]|
  {
    if p > |es[0]| {
      HolderHolds(es[1..], p - |es[0]| - 1);
      StartTail(es, Holder(es, p));
    }
  }

  lemma {:induction false} StartTail(es: seq<string>, k: nat)
    requires 0 < k <= |es|
    ensures Start(es, k) == |es[0]| + 1 + Start(es[1..], k - 1)
  {
    if k > 1 { StartTail(es, k - 1); }
  }

  function InsertResult(es: seq<string>, before: Option<int>, memory: bool): Error {
    if before.Some? && !(0 <= before.value < |Flat(es)|) then Invalid
    else if before.Some? && !BacksUp(es, before.value) then Undefined
    else if memory then Ok else NoMemory
  }

  function Inserted(es: seq<string>, before: Option<int>, entry: string): seq<string>
    requires before.Some? ==> 0 <= before.value < |Flat(es)|
  {
    var k := if before.Some? then Holder(es, before.value) else |es|;
    es[..k] + [entry] + es[k..]
  }

  /** The new entry is number `k`, where `k` is the entry that holds the position, and
      the others keep their order around it; for a null position it comes last. */
  lemma InsertedAt(es: seq<string>, before: Option<int>, entry: string)
    requires before.Some? ==> 0 <= before.value < |Flat(es)|
    ensures var r, k := Inserted(es, before, entry), if before.Some? then Holder(es, before.value) else |es|;
            && |r| == |es| + 1 && r[k] == entry
            && (forall i | 0 <= i < k :: r[i] == es[i])
            && (forall i | k <= i < |es| :: r[i + 1] == es[i])
  {}

  /** The backwards search from position `p` stops inside the block. */
  predicate BacksUp(es: seq<string>, p: nat)
    requires p < |Flat(es)|
  {
    p == 0 || Holder(es, p) > 0
  }

  /** Why that is the exact condition: there is a NUL before `p` for the search to stop
      at if and only if `p` is in a later entry than the first. */
  lemma SearchStops(es: seq<string>, p: nat)
    requires CleanAll(es) && p < |Flat(es)|
    ensures BacksUp(es, p) <==> p == 0 || exists i | 0 <= i < p :: Flat(es)[i] == NUL
  {
    var k := Holder(es, p);
    HolderHolds(es, p);
    if k > 0 {
      NulBefore(es, k);
    } else {
      forall i | 0 <= i < p ensures Flat(es)[i] != NUL { EntryAt(es, 0, i); }
    }
  }

  /** The second byte of a vector with the one entry "ab" is such a position. */
  lemma SearchLeaves()
    ensures |Flat(["ab"])| == 3 && !BacksUp(["ab"], 1)
    ensures InsertResult(["ab"], Some(1), true) == Undefined
  {
    FlatOne("ab");
  }

  lemma NulBefore(es: seq<string>, k: nat)
    requires 0 < k < |es|
    ensures 0 < Start(es, k) <= |Flat(es)| && Flat(es)[Start(es, k) - 1] == NUL
  {
    EntryAt(es, k - 1, |es[k - 1]|);
  }
}
