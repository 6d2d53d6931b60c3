/** Text operations behind the argz functions: joining entries with a separator,
    splitting a string into entries, and replacing a substring. */
module ArgzText {
  import opened CStrings
  import opened ArgzModel

  // ---------------------------------------------------------------- joining

  function Joined(es: seq<string>, sep: char): string {
    if |es| == 0 then ""
    else if |es| == 1 then es[0]
    else es[0] + [sep] + Joined(es[1..], sep)
  }

  /** A vector with every NUL but its last byte turned into `sep`. */
  function Stringified(v: string, sep: char): (s: string)
    ensures |s| == |v|
    ensures forall i | 0 <= i < |v| :: s[i] == if v[i] == NUL && i < |v| - 1 then sep else v[i]
  {
    seq(|v|, i requires 0 <= i < |v| => if v[i] == NUL && i < |v| - 1 then sep else v[i])
  }

  lemma StringifiedCons(e: string, rest: string, sep: char)
    requires Clean(e) && rest != ""
    ensures Stringified(e + [NUL] + rest, sep) == e + [sep] + Stringified(rest, sep)
  {}

  /** Stringifying a vector prints its entries with the separator between them. */
  lemma {:induction false} StringifiedIsJoined(es: seq<string>, sep: char)
    requires CleanAll(es) && es != []
    ensures Stringified(Flat(es), sep) == Joined(es, sep) + [NUL]
  {
    if |es| == 1 {
      assert Flat(es) == es[0] + [NUL];
    } else {
      StringifiedIsJoined(es[1..], sep);
      StringifiedCons(es[0], Flat(es[1..]), sep);
    }
  }

  // ---------------------------------------------------------------- splitting

  /** Every stretch between delimiters, empty ones included; `cur` has been read. */
  function Segments(s: string, delim: char, cur: string): (r: seq<string>)
    ensures r != []
    decreases |s|
  {
    if s == "" then [cur]
    else if s[0] == delim then [cur] + Segments(s[1..], delim, "")
    else Segments(s[1..], delim, cur + [s[0]])
  }

  /** Splitting and joining are inverse. */
  lemma {:induction false} SegmentsJoin(s: string, delim: char, cur: string)
    ensures Joined(Segments(s, delim, cur), delim) == cur + s
    decreases |s|
  {
    if s == "" {
    } else if s[0] == delim {
      var rest := Segments(s[1..], delim, "");
      SegmentsJoin(s[1..], delim, "");
      assert ([cur] + rest)[1..] == rest;
      assert cur + [delim] + s[1..] == cur + s;
    } else {
      SegmentsJoin(s[1..], delim, cur + [s[0]]);
      assert cur + [s[0]] + s[1..] == cur + s;
    }
  }

  /** What `argz_create_sep` and `argz_add_sep` keep of the segments: the empty ones go,
      except a last one. */
  function Kept(segments: seq<string>): seq<string> {
    if |segments| <= 1 then segments
    else (if segments[0] == "" then [] else [segments[0]]) + Kept(segments[1..])
  }

  /** The same, as the loop computes it: a delimiter ends an entry only if the entry has
      a character already. */
  function Pieces(s: string, delim: char, cur: string): seq<string>
    decreases |s|
  {
    if s == "" then [cur]
    else if s[0] == delim then (if cur == "" then [] else [cur]) + Pieces(s[1..], delim, "")
    else Pieces(s[1..], delim, cur + [s[0]])
  }

  lemma {:induction false} PiecesAreKept(s: string, delim: char, cur: string)
    ensures Pieces(s, delim, cur) == Kept(Segments(s, delim, cur))
    decreases |s|
  {
    if s == "" {
    } else if s[0] == delim {
      var rest := Segments(s[1..], delim, "");
      PiecesAreKept(s[1..], delim, "");
      assert ([cur] + rest)[1..] == rest;
    } else {
      PiecesAreKept(s[1..], delim, cur + [s[0]]);
    }
  }

  function Concat(es: seq<string>): string {
    if es == [] then "" else es[0] + Concat(es[1..])
  }

  function Without(s: string, delim: char): string {
    if s == "" then "" else (if s[0] == delim then "" else [s[0]]) + Without(s[1..], delim)
  }

  lemma ConcatCons(e: string, es: seq<string>)
    ensures Concat([e] + es) == e + Concat(es)
  {
    assert ([e] + es)[1..] == es;
  }

  /** Splitting loses nothing but delimiters: the pieces end to end are the string
      without them, and no piece has one. */
  lemma {:induction false} PiecesKeepText(s: string, delim: char, cur: string)
    requires delim !in cur
    ensures Concat(Pieces(s, delim, cur)) == cur + Without(s, delim)
    ensures forall e | e in Pieces(s, delim, cur) :: delim !in e
    decreases |s|
  {
    if s == "" {
      ConcatCons(cur, []);
    } else if s[0] == delim {
      var rest := Pieces(s[1..], delim, "");
      PiecesKeepText(s[1..], delim, "");
      ConcatCons(cur, rest);
      assert [] + rest == rest && "" + Without(s[1..], delim) == Without(s[1..], delim);
      assert cur == "" ==> cur + Without(s, delim) == Without(s, delim);
    } else {
      PiecesKeepText(s[1..], delim, cur + [s[0]]);
      assert cur + [s[0]] + Without(s[1..], delim) == cur + ([s[0]] + Without(s[1..], delim));
    }
  }

  lemma {:induction false} PiecesClean(s: string, delim: char, cur: string)
    requires Clean(s) && Clean(cur)
    ensures CleanAll(Pieces(s, delim, cur))
    decreases |s|
  {
    if s != "" {
      if s[0] == delim {
        PiecesClean(s[1..], delim, "");
      } else {
        PiecesClean(s[1..], delim, cur + [s[0]]);
      }
    }
  }

  /** The only empty entry a split can produce is one after a trailing delimiter: that is
      the exact condition under which no entry is empty. */
  lemma {:induction false} EmptyPieceIff(s: string, delim: char, cur: string)
    ensures "" in Pieces(s, delim, cur) <==> (if s == "" then cur == "" else s[|s| - 1] == delim)
    decreases |s|
  {
    if s == "" {
    } else if s[0] == delim {
      EmptyPieceIff(s[1..], delim, "");
    } else {
      EmptyPieceIff(s[1..], delim, cur + [s[0]]);
    }
  }

  /** "a:" splits into two entries, the second one empty. */
  lemma TrailingDelimiter()
    ensures Pieces("a:", ':', "") == ["a", ""]
  {
    PiecesOfText("a", ":", ':', "");
    assert "a" + ":" == "a:" && "" + "a" == "a";
    assert ":"[1..] == "";
    assert Pieces("", ':', "") == [""];
    assert Pieces(":", ':', "a") == ["a"] + [""];
  }

  lemma {:induction false} PiecesOfText(t: string, rest: string, delim: char, cur: string)
    requires delim !in t
    ensures Pieces(t + rest, delim, cur) == Pieces(rest, delim, cur + t)
    decreases |t|
  {
    if t == "" {
      assert t + rest == rest && cur + t == cur;
    } else {
      assert t[0] in t;
      assert (t + rest)[0] == t[0] && (t + rest)[1..] == t[1..] + rest;
      PiecesOfText(t[1..], rest, delim, cur + [t[0]]);
      assert cur + [t[0]] + t[1..] == cur + t;
    }
  }

  /** Stringify, then split on the same character: non-empty entries free of that
      character come back. */
  lemma {:induction false} SplitUndoesJoin(es: seq<string>, delim: char)
    requires es != [] && forall k | 0 <= k < |es| :: es[k] != "" && delim !in es[k]
    ensures Pieces(Joined(es, delim), delim, "") == es
  {
    if |es| == 1 {
      PiecesOfText(es[0], "", delim, "");
      assert es[0] + "" == es[0] && "" + es[0] == es[0];
    } else {
      var rest := Joined(es[1..], delim);
      SplitUndoesJoin(es[1..], delim);
      PiecesOfText(es[0], [delim] + rest, delim, "");
      assert es[0] + [delim] + rest == es[0] + ([delim] + rest) && "" + es[0] == es[0];
      assert ([delim] + rest)[1..] == rest;
    }
  }

  // ---------------------------------------------------------------- replacing

  predicate MatchAt(e: string, str: string, i: nat) {
    i + |str| <= |e| && forall j | 0 <= j < |str| :: e[i + j] == str[j]
  }

  lemma MatchIs(e: string, str: string, i: nat)
    ensures MatchAt(e, str, i) <==> i + |str| <= |e| && e[i..i + |str|] == str
  {
    if MatchAt(e, str, i) { assert e[i..i + |str|] == str; }
    if i + |str| <= |e| && e[i..i + |str|] == str {
      forall j | 0 <= j < |str| ensures e[i + j] == str[j] { assert e[i..i + |str|][j] == e[i + j]; }
    }
  }

  /** The string from `from` on with its matches replaced, leftmost first and without
      overlap: read it one character at a time. */
  function Replaced(e: string, str: string, with: string, from: nat): string
    requires from <= |e| && str != ""
    decreases |e| - from
  {
    if from == |e| then ""
    else if MatchAt(e, str, from) then with + Replaced(e, str, with, from + |str|)
    else [e[from]] + Replaced(e, str, with, from + 1)
  }

  /** How many replacements that makes. */
  function Matches(e: string, str: string, from: nat): nat
    requires from <= |e| && str != ""
    decreases |e| - from
  {
    if from == |e| then 0
    else if MatchAt(e, str, from) then 1 + Matches(e, str, from + |str|)
    else Matches(e, str, from + 1)
  }

  /** `strstr` from position `from`: the leftmost match, or the length of the string. */
  function Find(e: string, str: string, from: nat): (m: nat)
    requires from <= |e| && str != ""
    ensures from <= m <= |e| && (m < |e| ==> MatchAt(e, str, m))
    decreases |e| - from
  {
    if from == |e| || MatchAt(e, str, from) then from else Find(e, str, from + 1)
  }

  /** No match begins before the one found; if none is found, none begins at all. */
  lemma {:induction false} FindIsLeftmost(e: string, str: string, from: nat, i: nat)
    requires from <= i && from <= |e| && str != "" && i + |str| <= |e| && e[i..i + |str|] == str
    ensures Find(e, str, from) <= i
    decreases |e| - from
  {
    MatchIs(e, str, i);
    if from < i && !MatchAt(e, str, from) { FindIsLeftmost(e, str, from + 1, i); }
  }

  /** Replacing, match by match: the text before the leftmost match, the replacement, and
      the same again after the match. */
  lemma ReplacedFrom(e: string, str: string, with: string, from: nat)
    requires from <= |e| && str != ""
    ensures var m := Find(e, str, from);
            if m == |e| then Replaced(e, str, with, from) == e[from..] && Matches(e, str, from) == 0
            else
              && m + |str| <= |e| && e[m..m + |str|] == str
              && Replaced(e, str, with, from) == e[from..m] + (with + Replaced(e, str, with, m + |str|))
              && Matches(e, str, from) == 1 + Matches(e, str, m + |str|)
  {
    var m := Find(e, str, from);
    ReplacedToMatch(e, str, with, from);
    MatchesFromMatch(e, str, from);
    MatchIs(e, str, m);
    if m == |e| { assert e[from..m] == e[from..]; }
  }

  lemma {:induction false} MatchesFromMatch(e: string, str: string, from: nat)
    requires from <= |e| && str != ""
    ensures Matches(e, str, from) == Matches(e, str, Find(e, str, from))
    decreases |e| - from
  {
    if from < |e| && !MatchAt(e, str, from) { MatchesFromMatch(e, str, from + 1); }
  }

  /** Up to the leftmost match nothing is replaced. */
  lemma {:induction false} ReplacedToMatch(e: string, str: string, with: string, from: nat)
    requires from <= |e| && str != ""
    ensures var m := Find(e, str, from);
            Replaced(e, str, with, from) == e[from..m] + Replaced(e, str, with, m)
    decreases |e| - from
  {
    var m := Find(e, str, from);
    if m == from {
      assert e[from..m] == "";
    } else {
      ReplacedToMatch(e, str, with, from + 1);
      var a, b := e[from + 1..m], Replaced(e, str, with, m);
      assert e[from..m] == [e[from]] + a;
      assert [e[from]] + (a + b) == [e[from]] + a + b;
    }
  }

  lemma {:induction false} FoundIffMatches(e: string, str: string, from: nat)
    requires from <= |e| && str != ""
    ensures Find(e, str, from) < |e| <==> Matches(e, str, from) > 0
    decreases |e| - from
  {
    if from < |e| && !MatchAt(e, str, from) { FoundIffMatches(e, str, from + 1); }
  }

  /** Replacing by itself changes nothing, so nothing outside the matches is touched. */
  lemma {:induction false} ReplaceSelf(e: string, str: string, from: nat)
    requires from <= |e| && str != ""
    ensures Replaced(e, str, str, from) == e[from..]
    decreases |e| - from
  {
    if from < |e| {
      if MatchAt(e, str, from) {
        ReplaceSelf(e, str, from + |str|);
        assert e[from..from + |str|] == str;
        assert str + e[from + |str|..] == e[from..];
      } else {
        ReplaceSelf(e, str, from + 1);
      }
    }
  }

  lemma {:induction false} ReplacedClean(e: string, str: string, with: string, from: nat)
    requires from <= |e| && str != "" && Clean(e) && Clean(with)
    ensures Clean(Replaced(e, str, with, from))
    decreases |e| - from
  {
    if from < |e| {
      if MatchAt(e, str, from) {
        ReplacedClean(e, str, with, from + |str|);
      } else {
        ReplacedClean(e, str, with, from + 1);
      }
    }
  }

  function ReplacedAll(es: seq<string>, str: string, with: string): (r: seq<string>)
    requires str != ""
    ensures |r| == |es| && forall k | 0 <= k < |es| :: r[k] == Replaced(es[k], str, with, 0)
  {
    seq(|es|, k requires 0 <= k < |es| => Replaced(es[k], str, with, 0))
  }

  /** The entries that hold a match, which is what `argz_replace` adds to its counter. */
  function Hits(es: seq<string>, str: string): nat
    requires str != ""
  {
    if es == [] then 0
    else Hits(es[..|es| - 1], str) + (if Matches(es[|es| - 1], str, 0) > 0 then 1 else 0)
  }

  /** The replacements made, which is what its documentation says it adds. */
  function Replacements(es: seq<string>, str: string): nat
    requires str != ""
  {
    if es == [] then 0 else Replacements(es[..|es| - 1], str) + Matches(es[|es| - 1], str, 0)
  }

  /** The counter is the number of replacements exactly when no entry has two. */
  lemma {:induction false} HitsAreReplacements(es: seq<string>, str: string)
    requires str != ""
    ensures Hits(es, str) <= Replacements(es, str)
    ensures Hits(es, str) == Replacements(es, str) <==> forall k | 0 <= k < |es| :: Matches(es[k], str, 0) <= 1
  {
    if es != [] {
      var init := es[..|es| - 1];
      HitsAreReplacements(init, str);
      assert forall k | 0 <= k < |init| :: init[k] == es[k];
    }
  }

  /** One entry "xx" and the pattern "x": two replacements, counted once. */
  lemma CountedOnce()
    ensures Hits(["xx"], "x") == 1 && Replacements(["xx"], "x") == 2
  {}
}
