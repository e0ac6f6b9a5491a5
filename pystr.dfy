/** The few Python `str` operations the package relies on, with their
    Python semantics: `lower`, slicing off a suffix, `startswith`,
    `endswith`, `split(sep)`, the `in` substring test, `isdigit` and
    `str(int)`.  Characters are ASCII: case mapping and digit tests cover
    'A'..'Z' and '0'..'9' only. */
module PyStr {
  import opened Wrappers

  // ---------------------------------------------------------------- case

  function LowerChar(c: char): char {
    if 'A' <= c <= 'Z' then (c as int - 'A' as int + 'a' as int) as char else c
  }

  /** `s.lower()` */
  function Lower(s: string): (r: string)
    ensures |r| == |s| && IsLower(r)
    ensures forall i :: 0 <= i < |s| && 'A' <= s[i] <= 'Z' ==> r[i] as int == s[i] as int + 32
    ensures forall i :: 0 <= i < |s| && !('A' <= s[i] <= 'Z') ==> r[i] == s[i]
  {
    seq(|s|, i requires 0 <= i < |s| => LowerChar(s[i]))
  }

  predicate IsLower(s: string) {
    forall i :: 0 <= i < |s| ==> !('A' <= s[i] <= 'Z')
  }

  /** Lowering yields a lower-case string of the same length, and lowering
      again changes nothing. */
  lemma LowerIsLower(s: string)
    ensures |Lower(s)| == |s| && IsLower(Lower(s))
    ensures Lower(Lower(s)) == Lower(s)
  {
  }

  /** A string that is already lower case is its own lower-case form. */
  lemma LowerOfLower(s: string)
    requires IsLower(s)
    ensures Lower(s) == s
  {
  }

  // ------------------------------------------------------ prefix, suffix

  predicate StartsWith(s: string, prefix: string) {
    |prefix| <= |s| && s[..|prefix|] == prefix
  }

  predicate EndsWith(s: string, suffix: string) {
    |suffix| <= |s| && s[|s| - |suffix|..] == suffix
  }

  /** `s[:-n]` for n >= 1: everything but the last n characters, or "" when
      the string is not longer than n. */
  function DropLast(s: string, n: nat): (r: string)
    requires n >= 1
    ensures |r| == if |s| <= n then 0 else |s| - n
    ensures StartsWith(s, r)
  {
    if |s| <= n then "" else s[..|s| - n]
  }

  // ----------------------------------------------------------- substring

  /** `needle in hay` for two strings: a substring test, true for the empty
      needle. */
  predicate Contains(hay: string, needle: string): (b: bool)
    ensures b ==> |needle| <= |hay|
    decreases |hay|
  {
    StartsWith(hay, needle) || (hay != [] && Contains(hay[1..], needle))
  }

  ghost predicate OccursAt(hay: string, needle: string, i: int) {
    0 <= i && i + |needle| <= |hay| && hay[i..i + |needle|] == needle
  }

  /** The recursive test agrees with "some position of hay starts a copy of
      needle". */
  lemma {:induction false} ContainsIff(hay: string, needle: string)
    ensures Contains(hay, needle) <==> exists i :: OccursAt(hay, needle, i)
    decreases |hay|
  {
    if StartsWith(hay, needle) {
      assert OccursAt(hay, needle, 0);
    } else if hay == [] {
    } else {
      ContainsIff(hay[1..], needle);
      if exists i :: OccursAt(hay[1..], needle, i) {
        var i :| OccursAt(hay[1..], needle, i);
        assert hay[i + 1..i + 1 + |needle|] == hay[1..][i..i + |needle|];
        assert OccursAt(hay, needle, i + 1);
      }
      if exists i :: OccursAt(hay, needle, i) {
        var i :| OccursAt(hay, needle, i);
        assert i != 0;
        assert hay[1..][i - 1..i - 1 + |needle|] == hay[i..i + |needle|];
        assert OccursAt(hay[1..], needle, i - 1);
      }
    }
  }

  /** A needle with a character the haystack lacks does not occur in it. */
  lemma MissingCharNotContained(hay: string, needle: string, k: nat)
    requires k < |needle| && needle[k] !in hay
    ensures !Contains(hay, needle)
  {
    ContainsIff(hay, needle);
    forall i | 0 <= i && i + |needle| <= |hay|
      ensures !OccursAt(hay, needle, i)
    {
      assert hay[i..i + |needle|][k] == hay[i + k];
    }
  }

  /** A string that contains needle still does after anything is added
      around it. */
  lemma ContainsWithin(a: string, m: string, b: string, needle: string)
    requires Contains(m, needle)
    ensures Contains(a + m + b, needle)
  {
    ContainsIff(m, needle);
    var i :| OccursAt(m, needle, i);
    assert (a + m + b)[|a| + i..|a| + i + |needle|] == m[i..i + |needle|];
    assert OccursAt(a + m + b, needle, |a| + i);
    ContainsIff(a + m + b, needle);
  }

  // --------------------------------------------------------------- split

  /** `s.split(sep)` for a non-empty separator: the pieces between the
      non-overlapping occurrences of sep found scanning left to right. */
  function SplitOn(s: string, sep: string): (pieces: seq<string>)
    requires sep != []
    ensures |pieces| >= 1
    decreases |s|
  {
    if s == [] then [""]
    else if StartsWith(s, sep) then [""] + SplitOn(s[|sep|..], sep)
    else
      var rest := SplitOn(s[1..], sep);
      [[s[0]] + rest[0]] + rest[1..]
  }

  /** `sep.join(pieces)` */
  function Join(pieces: seq<string>, sep: string): string
    requires |pieces| >= 1
  {
    if |pieces| == 1 then pieces[0] else pieces[0] + sep + Join(pieces[1..], sep)
  }

  lemma JoinConsChar(c: char, pieces: seq<string>, sep: string)
    requires |pieces| >= 1
    ensures Join([[c] + pieces[0]] + pieces[1..], sep) == [c] + Join(pieces, sep)
  {
    var q := [[c] + pieces[0]] + pieces[1..];
    assert q[1..] == pieces[1..];
  }

  /** Joining the pieces with the separator gives back the string. */
  lemma {:induction false} SplitJoin(s: string, sep: string)
    requires sep != []
    ensures Join(SplitOn(s, sep), sep) == s
    decreases |s|
  {
    if s == [] {
    } else if StartsWith(s, sep) {
      SplitJoin(s[|sep|..], sep);
      SplitSepStep(s, sep);
      JoinConsEmpty(SplitOn(s[|sep|..], sep), sep);
    } else {
      SplitJoin(s[1..], sep);
      SplitOnCharStep(s, sep);
      JoinConsChar(s[0], SplitOn(s[1..], sep), sep);
    }
  }

  /** A string that starts with the separator: an empty piece, then the
      split of what follows the separator. */
  lemma SplitSepStep(s: string, sep: string)
    requires sep != [] && s != [] && StartsWith(s, sep)
    ensures SplitOn(s, sep) == [""] + SplitOn(s[|sep|..], sep)
    ensures s == sep + s[|sep|..]
  {
  }

  /** A string that does not start with the separator: its first character
      joins the first piece of the rest. */
  lemma SplitOnCharStep(s: string, sep: string)
    requires sep != [] && s != [] && !StartsWith(s, sep)
    ensures SplitOn(s, sep) == [[s[0]] + SplitOn(s[1..], sep)[0]] + SplitOn(s[1..], sep)[1..]
    ensures s == [s[0]] + s[1..]
  {
  }

  lemma JoinConsEmpty(pieces: seq<string>, sep: string)
    requires |pieces| >= 1
    ensures Join([""] + pieces, sep) == sep + Join(pieces, sep)
  {
    var q := [""] + pieces;
    assert q[1..] == pieces;
    assert "" + sep == sep;
  }

  lemma JoinStartsWithFirst(pieces: seq<string>, sep: string)
    requires |pieces| >= 1
    ensures StartsWith(Join(pieces, sep), pieces[0])
  {
  }

  /** No piece of a split contains the separator. */
  lemma {:induction false} SplitPiecesAvoidSep(s: string, sep: string)
    requires sep != []
    ensures forall k :: 0 <= k < |SplitOn(s, sep)| ==> !Contains(SplitOn(s, sep)[k], sep)
    decreases |s|
  {
    if s == [] {
      assert SplitOn(s, sep) == [""];
    } else if StartsWith(s, sep) {
      SplitPiecesAvoidSep(s[|sep|..], sep);
      SplitSepStep(s, sep);
      assert !Contains("", sep);
    } else {
      SplitPiecesAvoidSep(s[1..], sep);
      SplitOnCharStep(s, sep);
      FirstPieceAvoidsSep(s, sep);
    }
  }

  /** When the separator does not start `s`, the first piece, which extends
      the first piece of `s[1..]` by `s[0]`, still avoids it. */
  lemma FirstPieceAvoidsSep(s: string, sep: string)
    requires sep != [] && s != [] && !StartsWith(s, sep)
    requires !Contains(SplitOn(s[1..], sep)[0], sep)
    ensures !Contains([s[0]] + SplitOn(s[1..], sep)[0], sep)
  {
    var rest := SplitOn(s[1..], sep);
    SplitJoin(s[1..], sep);
    JoinStartsWithFirst(rest, sep);
    var p := [s[0]] + rest[0];
    assert StartsWith(s[1..], rest[0]);
    assert s[..|p|] == p;
    assert !StartsWith(p, sep);
    assert p[1..] == rest[0];
  }

  /** A string with no occurrence of the separator splits into itself. */
  lemma {:induction false} SplitWithoutSep(s: string, sep: string)
    requires sep != [] && !Contains(s, sep)
    ensures SplitOn(s, sep) == [s]
    decreases |s|
  {
    if s != [] {
      assert !StartsWith(s, sep);
      SplitWithoutSep(s[1..], sep);
      assert s == [s[0]] + s[1..];
    }
  }

  /** A piece free of the separator, then the separator, then anything:
      the split starts with that piece and continues with the split of the
      rest. */
  lemma {:induction false} SplitAfterPiece(p: string, sep: string, rest: string)
    requires sep != [] && sep[0] !in sep[1..] && !Contains(p, sep)
    ensures SplitOn(p + sep + rest, sep) == [p] + SplitOn(rest, sep)
    decreases |p|
  {
    if p == [] {
      assert p + sep + rest == sep + rest;
      SplitSepStep(sep + rest, sep);
      assert (sep + rest)[|sep|..] == rest;
    } else {
      PieceNotAtFront(p, sep, rest);
      assert !Contains(p[1..], sep);
      SplitAfterPiece(p[1..], sep, rest);
      SplitPieceStep(p, sep, rest);
      var ps := SplitOn(p[1..] + sep + rest, sep);
      assert ps[0] == p[1..] && ps[1..] == SplitOn(rest, sep);
      assert [p[0]] + p[1..] == p;
    }
  }

  /** A non-empty separator-free piece before the separator: the separator
      does not start at the front. */
  lemma PieceNotAtFront(p: string, sep: string, rest: string)
    requires sep != [] && sep[0] !in sep[1..] && !Contains(p, sep) && p != []
    ensures !StartsWith(p + sep + rest, sep)
  {
    var s := p + sep + rest;
    if StartsWith(s, sep) && |p| < |sep| {
      // the occurrence at 0 would end inside the separator after p
      assert s[..|sep|] == p + sep[..|sep| - |p|];
      SepSelfOverlap(p, sep);
    }
  }

  /** The first character of the piece joins the first piece of the rest. */
  lemma SplitPieceStep(p: string, sep: string, rest: string)
    requires sep != [] && p != [] && !StartsWith(p + sep + rest, sep)
    ensures SplitOn(p + sep + rest, sep)
            == [[p[0]] + SplitOn(p[1..] + sep + rest, sep)[0]] + SplitOn(p[1..] + sep + rest, sep)[1..]
  {
    assert (p + sep + rest)[1..] == p[1..] + sep + rest;
  }

  /** A separator that starts again inside itself: the case where a
      separator-free piece followed by the separator could still begin with
      the separator.  It never happens for separators whose first character
      does not occur again, which covers every separator the package uses. */
  lemma SepSelfOverlap(p: string, sep: string)
    requires 0 < |p| < |sep| && p + sep[..|sep| - |p|] == sep
    ensures sep[0] in sep[1..]
  {
    assert sep[|p|] == sep[0] by {
      assert sep[|p|] == (p + sep[..|sep| - |p|])[|p|];
    }
    assert sep[1..][|p| - 1] == sep[|p|];
  }

  /** Splitting a join of separator-free pieces gives the pieces back. */
  lemma {:induction false} JoinSplit(pieces: seq<string>, sep: string)
    requires |pieces| >= 1 && sep != [] && sep[0] !in sep[1..]
    requires forall k :: 0 <= k < |pieces| ==> !Contains(pieces[k], sep)
    ensures SplitOn(Join(pieces, sep), sep) == pieces
    decreases |pieces|
  {
    if |pieces| == 1 {
      SplitWithoutSep(pieces[0], sep);
    } else {
      JoinSplit(pieces[1..], sep);
      SplitAfterPiece(pieces[0], sep, Join(pieces[1..], sep));
    }
  }

  /** The last piece of `s.split(sep)`, as `s.split(sep)[-1]` reads it. */
  function LastPiece(s: string, sep: string): (r: string)
    requires sep != []
    ensures !Contains(r, sep)
  {
    SplitPiecesAvoidSep(s, sep);
    var pieces := SplitOn(s, sep);
    pieces[|pieces| - 1]
  }

  lemma JoinLast(pieces: seq<string>, sep: string)
    requires |pieces| >= 1
    ensures |pieces| == 1 ==> Join(pieces, sep) == pieces[0]
    ensures |pieces| > 1 ==> exists front :: Join(pieces, sep) == front + sep + pieces[|pieces| - 1]
  {
    if |pieces| > 2 {
      JoinLast(pieces[1..], sep);
      var front :| Join(pieces[1..], sep) == front + sep + pieces[1..][|pieces[1..]| - 1];
      assert Join(pieces, sep) == (pieces[0] + sep + front) + sep + pieces[|pieces| - 1];
    } else if |pieces| == 2 {
      assert Join(pieces[1..], sep) == pieces[1];
      assert Join(pieces, sep) == pieces[0] + sep + pieces[1];
    }
  }

  /** What `s.split(sep)[-1]` means: the text after the last occurrence of
      sep, or all of s when sep does not occur; it never contains sep. */
  lemma LastPieceMeaning(s: string, sep: string)
    requires sep != []
    ensures EndsWith(s, LastPiece(s, sep))
    ensures !Contains(LastPiece(s, sep), sep)
    ensures !Contains(s, sep) ==> LastPiece(s, sep) == s
    ensures Contains(s, sep) ==> exists front :: s == front + sep + LastPiece(s, sep)
  {
    SplitPiecesAvoidSep(s, sep);
    var pieces := SplitOn(s, sep);
    assert LastPiece(s, sep) == pieces[|pieces| - 1];
    if |pieces| == 1 {
      LastPieceSingle(s, sep);
      assert s[|s| - |s|..] == s;
    } else {
      LastPieceMany(s, sep);
      var front :| s == front + sep + LastPiece(s, sep);
      SuffixAfter(front, sep, LastPiece(s, sep));
    }
  }

  /** A split into one piece: that piece is the whole string. */
  lemma LastPieceSingle(s: string, sep: string)
    requires sep != [] && |SplitOn(s, sep)| == 1
    ensures LastPiece(s, sep) == s
  {
    SplitJoin(s, sep);
  }

  /** A split into several pieces: the separator occurs, and the last piece
      follows an occurrence of it. */
  lemma LastPieceMany(s: string, sep: string)
    requires sep != [] && |SplitOn(s, sep)| > 1
    ensures exists front :: s == front + sep + LastPiece(s, sep)
    ensures Contains(s, sep)
  {
    var pieces := SplitOn(s, sep);
    SplitJoin(s, sep);
    JoinLast(pieces, sep);
    var front :| Join(pieces, sep) == front + sep + pieces[|pieces| - 1];
    ContainsWithin(front, sep, pieces[|pieces| - 1], sep) by {
      assert StartsWith(sep, sep);
    }
  }

  lemma SuffixAfter(front: string, sep: string, last: string)
    ensures EndsWith(front + sep + last, last)
  {
    var s := front + sep + last;
    assert s[|s| - |last|..] == last;
  }

  // -------------------------------------------------------------- digits

  predicate IsDigit(c: char) {
    '0' <= c <= '9'
  }

  /** `s.isdigit()`: non-empty and made of digits only. */
  predicate IsDigits(s: string) {
    s != [] && forall i :: 0 <= i < |s| ==> IsDigit(s[i])
  }

  function DigitChar(d: nat): (c: char)
    requires d < 10
    ensures IsDigit(c) && c as int - '0' as int == d
  {
    ('0' as int + d) as char
  }

  /** `str(n)` for a natural number: decimal digits, no leading zero. */
  function NatToString(n: nat): string
    decreases n
  {
    if n < 10 then [DigitChar(n)] else NatToString(n / 10) + [DigitChar(n % 10)]
  }

  /** `str(n)` for an integer. */
  function IntToString(n: int): string {
    if n < 0 then "-" + NatToString(-n) else NatToString(n)
  }

  /** The value of a string of digits. */
  function DigitsValue(s: string): nat
    requires forall i :: 0 <= i < |s| ==> IsDigit(s[i])
  {
    if s == [] then 0
    else
      assert IsDigit(s[|s| - 1]);
      DigitsValue(s[..|s| - 1]) * 10 + (s[|s| - 1] as int - '0' as int)
  }

  /** `int(s)` for the strings `str(int)` produces; None for anything else. */
  function ParseInt(s: string): Option<int> {
    if |s| >= 2 && s[0] == '-' && IsDigits(s[1..]) then Some(-(DigitsValue(s[1..]) as int))
    else if IsDigits(s) then Some(DigitsValue(s))
    else None
  }

  lemma {:induction false} NatToStringDigits(n: nat)
    ensures IsDigits(NatToString(n))
    ensures DigitsValue(NatToString(n)) == n
    decreases n
  {
    if n >= 10 {
      NatToStringDigits(n / 10);
      var s := NatToString(n);
      assert s[..|s| - 1] == NatToString(n / 10);
    }
  }

  /** Printing an integer and reading it back gives the integer; the
      printed form holds only digits and a leading minus sign. */
  lemma IntToStringRoundTrip(n: int)
    ensures ParseInt(IntToString(n)) == Some(n)
    ensures forall i :: 0 <= i < |IntToString(n)| ==> IsDigit(IntToString(n)[i]) || IntToString(n)[i] == '-'
  {
    var s := IntToString(n);
    if n < 0 {
      NatToStringDigits(-n);
      assert s[1..] == NatToString(-n);
      assert s[0] == '-';
      assert forall i :: 1 <= i < |s| ==> s[i] == s[1..][i - 1];
    } else {
      NatToStringDigits(n);
    }
  }
}
