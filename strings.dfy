/** The JavaScript string operations the handlers rely on: `String.prototype.trim`
    and `String.prototype.split` with a one-character separator. */
module Strings {

  /** The characters `trim` removes: ECMAScript WhiteSpace and LineTerminator,
      that is tab, line feed, vertical tab, form feed, carriage return, space,
      no-break space, the Unicode space separators, the line and paragraph
      separators and the byte order mark. */
  predicate IsJsSpace(c: char)
  {
    || ('\t' <= c <= '\r') || c == ' ' || c == '\U{00A0}' || c == '\U{1680}'
    || ('\U{2000}' <= c <= '\U{200A}') || c == '\U{2028}' || c == '\U{2029}'
    || c == '\U{202F}' || c == '\U{205F}' || c == '\U{3000}' || c == '\U{FEFF}'
  }

  // ---------------------------------------------------------------------------
  // Trimming, for any class `ws` of removable characters

  predicate AllIn(s: string, ws: char -> bool)
  {
    forall i :: 0 <= i < |s| ==> ws(s[i])
  }

  predicate TrimmedBy(s: string, ws: char -> bool)
  {
    s == [] || (!ws(s[0]) && !ws(s[|s| - 1]))
  }

  /** The number of leading characters of `s` that are in `ws`. */
  function LeadCount(s: string, ws: char -> bool): (n: nat)
    ensures n <= |s| && forall k :: 0 <= k < n ==> ws(s[k])
    ensures n < |s| ==> !ws(s[n])
    decreases |s|
  {
    if s != [] && ws(s[0]) then
      var m := LeadCount(s[1..], ws);
      assert forall k :: 0 < k < m + 1 ==> s[k] == s[1..][k - 1];
      m + 1
    else 0
  }

  /** The number of trailing characters of `s` that are in `ws`. */
  function TrailCount(s: string, ws: char -> bool): (n: nat)
    ensures n <= |s| && forall k :: |s| - n <= k < |s| ==> ws(s[k])
    ensures n < |s| ==> !ws(s[|s| - n - 1])
    decreases |s|
  {
    if s != [] && ws(s[|s| - 1]) then
      var m := TrailCount(s[..|s| - 1], ws);
      assert forall k :: 0 <= k < |s| - 1 ==> s[k] == s[..|s| - 1][k];
      m + 1
    else 0
  }

  /** The window of `s` between its leading and its trailing characters from `ws`. */
  function TrimBy(s: string, ws: char -> bool): (r: string)
    ensures TrimmedBy(r, ws)
  {
    var i := LeadCount(s, ws);
    if i == |s| then []
    else
      var n := TrailCount(s, ws);
      assert !ws(s[i]);
      s[i..|s| - n]
  }

  /** `s` is its trimmed form with removable characters added at the ends: the
      removed front has length `i`. */
  lemma TrimByWindow(s: string, ws: char -> bool) returns (i: nat)
    ensures i + |TrimBy(s, ws)| <= |s| && TrimBy(s, ws) == s[i..i + |TrimBy(s, ws)|]
    ensures AllIn(s[..i], ws) && AllIn(s[i + |TrimBy(s, ws)|..], ws)
  {
    i := LeadCount(s, ws);
    assert forall k :: 0 <= k < i ==> s[..i][k] == s[k];
    if i < |s| {
      var n := TrailCount(s, ws);
      var t := s[|s| - n..];
      assert forall k :: 0 <= k < |t| ==> t[k] == s[|s| - n + k];
    }
  }

  lemma AllInConcat(a: string, b: string, ws: char -> bool)
    requires AllIn(a, ws) && AllIn(b, ws)
    ensures AllIn(a + b, ws)
  {
    forall k | 0 <= k < |a + b| ensures ws((a + b)[k]) {
      if k < |a| { assert (a + b)[k] == a[k]; } else { assert (a + b)[k] == b[k - |a|]; }
    }
  }

  lemma {:induction false} LeadCountPadded(lead: string, rest: string, ws: char -> bool)
    requires AllIn(lead, ws) && (rest == [] || !ws(rest[0]))
    ensures LeadCount(lead + rest, ws) == |lead|
    decreases |lead|
  {
    if lead != [] {
      assert (lead + rest)[1..] == lead[1..] + rest;
      LeadCountPadded(lead[1..], rest, ws);
    } else {
      assert lead + rest == rest;
    }
  }

  lemma {:induction false} TrailCountPadded(rest: string, trail: string, ws: char -> bool)
    requires AllIn(trail, ws) && (rest == [] || !ws(rest[|rest| - 1]))
    ensures TrailCount(rest + trail, ws) == |trail|
    decreases |trail|
  {
    if trail != [] {
      var s := rest + trail;
      assert s[..|s| - 1] == rest + trail[..|trail| - 1];
      TrailCountPadded(rest, trail[..|trail| - 1], ws);
    } else {
      assert rest + trail == rest;
    }
  }

  lemma TrimByPadded(lead: string, core: string, trail: string, ws: char -> bool)
    requires AllIn(lead, ws) && AllIn(trail, ws) && TrimmedBy(core, ws)
    ensures TrimBy(lead + core + trail, ws) == core
  {
    var s := lead + core + trail;
    if core == [] {
      AllInConcat(lead, trail, ws);
      assert s == lead + trail + [];
      LeadCountPadded(lead + trail, [], ws);
    } else {
      assert s == lead + (core + trail);
      LeadCountPadded(lead, core + trail, ws);
      assert (lead + core)[|lead + core| - 1] == core[|core| - 1];
      TrailCountPadded(lead + core, trail, ws);
    }
  }

  // ---------------------------------------------------------------------------
  // `String.prototype.trim`

  predicate AllSpace(s: string)
  {
    AllIn(s, IsJsSpace)
  }

  /** A string `trim` leaves as it is: no white space at either end. */
  predicate IsTrimmed(s: string)
  {
    TrimmedBy(s, IsJsSpace)
  }

  /** `s.trim()`. */
  function Trim(s: string): (r: string)
    ensures IsTrimmed(r)
  {
    TrimBy(s, IsJsSpace)
  }

  /** Trimming is characterised by its input's shape: white space, a trimmed core, white space. */
  lemma TrimPadded(lead: string, core: string, trail: string)
    requires AllSpace(lead) && AllSpace(trail) && IsTrimmed(core)
    ensures Trim(lead + core + trail) == core
  {
    TrimByPadded(lead, core, trail, IsJsSpace);
  }

  lemma TrimIdempotent(s: string)
    ensures Trim(Trim(s)) == Trim(s)
  {
    TrimPadded([], Trim(s), []);
    assert [] + Trim(s) + [] == Trim(s);
  }

  /** `s.trim()` is empty exactly when `s` is all white space. */
  lemma TrimEmptyIff(s: string)
    ensures Trim(s) == [] <==> AllSpace(s)
  {
    if AllSpace(s) {
      TrimPadded(s, [], []);
      assert s + [] + [] == s;
    }
    if Trim(s) == [] {
      var i := TrimByWindow(s, IsJsSpace);
      AllInConcat(s[..i], s[i..], IsJsSpace);
      assert s == s[..i] + s[i..];
    }
  }

  /** A character of `s.trim()` is a character of `s`. */
  lemma TrimWithin(s: string, c: char)
    requires c in Trim(s)
    ensures c in s
  {
    var r := Trim(s);
    var i := TrimByWindow(s, IsJsSpace);
    var k :| 0 <= k < |r| && r[k] == c;
    assert s[i + k] == c;
  }

  /** Number of occurrences of `c` in `s`. */
  function Occurrences(s: string, c: char): nat
    decreases |s|
  {
    if s == [] then 0 else (if s[0] == c then 1 else 0) + Occurrences(s[1..], c)
  }

  /** `s.split(sep)`: the pieces between separators, empty ones included. */
  function Split(s: string, sep: char): (r: seq<string>)
    ensures |r| == Occurrences(s, sep) + 1
    ensures forall i :: 0 <= i < |r| ==> sep !in r[i]
    decreases |s|
  {
    if s == [] then [""]
    else
      var rest := Split(s[1..], sep);
      if s[0] == sep then [""] + rest
      else [[s[0]] + rest[0]] + rest[1..]
  }

  /** `pieces.join(sep)`, the inverse of `split`. */
  function Join(pieces: seq<string>, sep: char): string
    requires |pieces| > 0
    decreases |pieces|
  {
    if |pieces| == 1 then pieces[0] else pieces[0] + [sep] + Join(pieces[1..], sep)
  }

  lemma {:induction false} JoinSplit(s: string, sep: char)
    ensures Join(Split(s, sep), sep) == s
    decreases |s|
  {
    if s != [] {
      JoinSplit(s[1..], sep);
      var rest := Split(s[1..], sep);
      if s[0] == sep {
        assert ([""] + rest)[1..] == rest;
      } else {
        var r := [[s[0]] + rest[0]] + rest[1..];
        if |rest| == 1 {
          assert Join(r, sep) == [s[0]] + rest[0];
        } else {
          assert r[1..] == rest[1..];
          assert Join(rest, sep) == rest[0] + [sep] + Join(rest[1..], sep);
        }
      }
    }
  }

  lemma {:induction false} SplitJoin(pieces: seq<string>, sep: char)
    requires |pieces| > 0
    requires forall i :: 0 <= i < |pieces| ==> sep !in pieces[i]
    ensures Split(Join(pieces, sep), sep) == pieces
    decreases |pieces|, |pieces[0]|
  {
    var p := pieces[0];
    if |pieces| == 1 {
      SplitNoSep(p, sep);
    } else if p == [] {
      var tail := pieces[1..];
      SplitJoin(tail, sep);
      JoinEmptyHead(pieces, sep);
      assert [""] + tail == pieces;
    } else {
      var shorter := [p[1..]] + pieces[1..];
      assert forall i :: 1 <= i < |shorter| ==> shorter[i] == pieces[i];
      assert p[0] in p;
      SplitJoin(shorter, sep);
      JoinNonEmptyHead(pieces, sep);
      assert [p[0]] + p[1..] == p;
      assert pieces == [p] + shorter[1..];
    }
  }

  /** Joining pieces that start with an empty one starts with the separator. */
  lemma JoinEmptyHead(pieces: seq<string>, sep: char)
    requires |pieces| > 1 && pieces[0] == []
    ensures Join(pieces, sep) != [] && Join(pieces, sep)[0] == sep
    ensures Join(pieces, sep)[1..] == Join(pieces[1..], sep)
  {
    assert Join(pieces, sep) == [sep] + Join(pieces[1..], sep);
  }

  /** Joining pieces that start with a non-empty one starts with its first character. */
  lemma JoinNonEmptyHead(pieces: seq<string>, sep: char)
    requires |pieces| > 1 && pieces[0] != []
    ensures Join(pieces, sep) != [] && Join(pieces, sep)[0] == pieces[0][0]
    ensures Join(pieces, sep)[1..] == Join([pieces[0][1..]] + pieces[1..], sep)
  {
    var p := pieces[0];
    var shorter := [p[1..]] + pieces[1..];
    assert shorter[1..] == pieces[1..];
    assert Join(pieces, sep) == p + [sep] + Join(pieces[1..], sep);
    assert Join(shorter, sep) == p[1..] + [sep] + Join(pieces[1..], sep);
  }

  lemma {:induction false} SplitNoSep(s: string, sep: char)
    requires sep !in s
    ensures Split(s, sep) == [s]
    decreases |s|
  {
    if s != [] {
      assert forall c :: c in s[1..] ==> c in s;
      SplitNoSep(s[1..], sep);
      assert [s[0]] + s[1..] == s;
    }
  }

  /** `pieces.join(sep)` for a separator of any length; an empty array joins to "". */
  function JoinWith(pieces: seq<string>, sep: string): string
    decreases |pieces|
  {
    if pieces == [] then "" else if |pieces| == 1 then pieces[0] else pieces[0] + sep + JoinWith(pieces[1..], sep)
  }
}
