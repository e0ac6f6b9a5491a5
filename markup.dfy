/** The description tokeniser of `get_data`: `re.split(r"<[^<>]*>", desc)`
    followed by dropping the empty pieces.

    A tag is a match of `<[^<>]*>`: a '<', any characters other than '<'
    and '>', then a '>'.  The regular-expression engine scans left to
    right; at each position it either matches a tag there (the match cannot
    be shortened or lengthened, since the body stops at the first '<' or
    '>') or moves one character on.  A '<' that meets another '<', or the
    end of the text, before any '>' is therefore ordinary text. */
module Markup {

  /** `t` is one complete match of `<[^<>]*>`. */
  predicate IsTag(t: string) {
    && |t| >= 2
    && t[0] == '<'
    && t[|t| - 1] == '>'
    && forall k :: 0 < k < |t| - 1 ==> t[k] != '<' && t[k] != '>'
  }

  /** Some substring of `s` is a complete tag. */
  ghost predicate HasTag(s: string) {
    exists i, j :: 0 <= i < j <= |s| && IsTag(s[i..j])
  }

  /** Scans a tag body that starts at `i` (with `s[0] == '<'`): one past the
      first '>' when it comes before any '<', and 0 when a '<' or the end of
      `s` comes first. */
  function CloseTag(s: string, i: nat): (n: nat)
    requires 1 <= i <= |s|
    ensures n != 0 ==> i < n <= |s| && s[n - 1] == '>'
    ensures n != 0 ==> forall k :: i <= k < n - 1 ==> s[k] != '<' && s[k] != '>'
    ensures n == 0 ==> forall m :: i <= m < |s| && s[m] == '>' ==>
                         exists k :: i <= k < m && (s[k] == '<' || s[k] == '>')
    decreases |s| - i
  {
    if i == |s| then 0
    else if s[i] == '>' then i + 1
    else if s[i] == '<' then 0
    else CloseTag(s, i + 1)
  }

  /** The length of the tag the regular expression matches at the start of
      `s`, or 0 when it matches none there. */
  function TagLength(s: string): (n: nat)
    ensures n != 0 ==> n <= |s| && IsTag(s[..n])
    ensures n == 0 ==> forall j :: 0 <= j <= |s| ==> !IsTag(s[..j])
  {
    if s != [] && s[0] == '<' then
      var n := CloseTag(s, 1);
      if n == 0 then NoTagAtStart(s); 0 else n
    else 0
  }

  /** When the scan of the body fails, no prefix of `s` is a tag. */
  lemma NoTagAtStart(s: string)
    requires s != [] && s[0] == '<' && CloseTag(s, 1) == 0
    ensures forall j :: 0 <= j <= |s| ==> !IsTag(s[..j])
  {
    forall j | 2 <= j <= |s| && s[j - 1] == '>'
      ensures !IsTag(s[..j])
    {
      var k :| 1 <= k < j - 1 && (s[k] == '<' || s[k] == '>');
      assert s[..j][k] == s[k];
    }
  }

  /** A tag prefix rules out every longer tag prefix: its '>' would sit
      inside the longer one. */
  lemma TagPrefixExcludesLonger(s: string, a: nat, b: nat)
    requires a < b <= |s| && IsTag(s[..a])
    ensures !IsTag(s[..b])
  {
    assert s[..b][a - 1] == s[..a][a - 1];
  }

  /** A tag at the start of a string is the match the scanner finds. */
  lemma TagLengthOfTag(t: string, rest: string)
    requires IsTag(t)
    ensures TagLength(t + rest) == |t|
  {
    var s := t + rest;
    assert s[..|t|] == t;
    forall b | |t| < b <= |s|
      ensures !IsTag(s[..b])
    {
      TagPrefixExcludesLonger(s, |t|, b);
    }
  }

  /** `re.split(r"<[^<>]*>", s)`: the text before, between and after the
      tags matched scanning left to right, empty pieces included. */
  function Split(s: string): (pieces: seq<string>)
    ensures |pieces| >= 1
    decreases |s|
  {
    if s == [] then [""]
    else
      var n := TagLength(s);
      if n != 0 then [""] + Split(s[n..])
      else
        var rest := Split(s[1..]);
        [[s[0]] + rest[0]] + rest[1..]
  }

  /** The tags that `Split` cuts out, in order. */
  ghost function Tags(s: string): seq<string>
    decreases |s|
  {
    if s == [] then []
    else
      var n := TagLength(s);
      if n != 0 then [s[..n]] + Tags(s[n..]) else Tags(s[1..])
  }

  /** piece0 + tag0 + piece1 + tag1 + ... + pieceN */
  function Weave(pieces: seq<string>, tags: seq<string>): string
    requires |pieces| == |tags| + 1
  {
    if tags == [] then pieces[0] else pieces[0] + tags[0] + Weave(pieces[1..], tags[1..])
  }

  /** `pieces` and `tags` decompose `s` into tag-free text and tags. */
  ghost predicate IsDecomposition(s: string, pieces: seq<string>, tags: seq<string>) {
    && |pieces| == |tags| + 1
    && Weave(pieces, tags) == s
    && (forall k :: 0 <= k < |tags| ==> IsTag(tags[k]))
    && (forall k :: 0 <= k < |pieces| ==> !HasTag(pieces[k]))
  }

  lemma WeaveConsChar(c: char, pieces: seq<string>, tags: seq<string>)
    requires |pieces| == |tags| + 1
    ensures Weave([[c] + pieces[0]] + pieces[1..], tags) == [c] + Weave(pieces, tags)
  {
    var q := [[c] + pieces[0]] + pieces[1..];
    assert q[1..] == pieces[1..];
  }

  lemma WeaveStartsWithFirst(pieces: seq<string>, tags: seq<string>)
    requires |pieces| == |tags| + 1
    ensures |pieces[0]| <= |Weave(pieces, tags)|
    ensures Weave(pieces, tags)[..|pieces[0]|] == pieces[0]
  {
  }

  /** Adding a character in front of a tag-free text, where that character
      does not start a tag, keeps it tag-free. */
  lemma ConsTagFree(s: string, p: string)
    requires s != [] && TagLength(s) == 0
    requires |p| + 1 <= |s| && s[..|p| + 1] == [s[0]] + p
    requires !HasTag(p)
    ensures !HasTag([s[0]] + p)
  {
    var q := [s[0]] + p;
    forall i, j | 0 <= i < j <= |q|
      ensures !IsTag(q[i..j])
    {
      if i == 0 {
        assert q[..j] == s[..j];
      } else {
        assert q[i..j] == p[i - 1..j - 1];
      }
    }
  }

  lemma WeaveCons(p: string, t: string, pieces: seq<string>, tags: seq<string>)
    requires |pieces| == |tags| + 1
    ensures Weave([p] + pieces, [t] + tags) == p + t + Weave(pieces, tags)
  {
    assert ([p] + pieces)[1..] == pieces;
    assert ([t] + tags)[1..] == tags;
  }

  /** Weaving the pieces of `Split` with the tags it cut out gives the text back. */
  lemma {:induction false} SplitWeaves(s: string)
    ensures |Split(s)| == |Tags(s)| + 1
    ensures Weave(Split(s), Tags(s)) == s
    decreases |s|
  {
    if s != [] {
      var n := TagLength(s);
      if n != 0 {
        SplitWeaves(s[n..]);
        WeavesAfterTag(s);
      } else {
        SplitWeaves(s[1..]);
        WeavesAfterChar(s);
      }
    }
  }

  /** The step of `SplitWeaves` when the text starts with a tag. */
  lemma WeavesAfterTag(s: string)
    requires s != [] && TagLength(s) != 0
    requires |Split(s[TagLength(s)..])| == |Tags(s[TagLength(s)..])| + 1
    requires Weave(Split(s[TagLength(s)..]), Tags(s[TagLength(s)..])) == s[TagLength(s)..]
    ensures |Split(s)| == |Tags(s)| + 1
    ensures Weave(Split(s), Tags(s)) == s
  {
    var n := TagLength(s);
    SplitTagStep(s, n);
    WeaveFront(s[..n], s[n..], Split(s[n..]), Tags(s[n..]));
  }

  /** `Split` and `Tags` of a text starting with a tag of length `n`. */
  lemma SplitTagStep(s: string, n: nat)
    requires s != [] && n == TagLength(s) && n != 0
    ensures Split(s) == [""] + Split(s[n..])
    ensures Tags(s) == [s[..n]] + Tags(s[n..])
    ensures s == s[..n] + s[n..]
  {
    SplitOfTag(s, n);
    TagsOfTag(s, n);
  }

  lemma SplitOfTag(s: string, n: nat)
    requires s != [] && n == TagLength(s) && n != 0
    ensures Split(s) == [""] + Split(s[n..])
  {
  }

  lemma TagsOfTag(s: string, n: nat)
    requires s != [] && n == TagLength(s) && n != 0
    ensures Tags(s) == [s[..n]] + Tags(s[n..])
  {
  }

  /** An empty piece and a tag in front of a weave put the tag in front of the text. */
  lemma WeaveFront(tag: string, rest: string, pieces: seq<string>, tags: seq<string>)
    requires |pieces| == |tags| + 1 && Weave(pieces, tags) == rest
    ensures Weave([""] + pieces, [tag] + tags) == tag + rest
  {
    WeaveCons("", tag, pieces, tags);
    assert "" + tag == tag;
  }

  /** The step of `SplitWeaves` when no tag starts the text. */
  lemma WeavesAfterChar(s: string)
    requires s != [] && TagLength(s) == 0
    requires |Split(s[1..])| == |Tags(s[1..])| + 1
    requires Weave(Split(s[1..]), Tags(s[1..])) == s[1..]
    ensures |Split(s)| == |Tags(s)| + 1
    ensures Weave(Split(s), Tags(s)) == s
  {
    var rest := s[1..];
    var pieces := Split(rest);
    assert Split(s) == [[s[0]] + pieces[0]] + pieces[1..];
    assert Tags(s) == Tags(rest);
    WeaveConsChar(s[0], pieces, Tags(rest));
    assert s == [s[0]] + rest;
  }

  /** Everything `Split` cuts out is a complete tag. */
  lemma {:induction false} SplitCutsTags(s: string)
    ensures forall k :: 0 <= k < |Tags(s)| ==> IsTag(Tags(s)[k])
    decreases |s|
  {
    if s != [] {
      var n := TagLength(s);
      if n != 0 {
        SplitCutsTags(s[n..]);
        assert Tags(s)[1..] == Tags(s[n..]);
      } else {
        SplitCutsTags(s[1..]);
      }
    }
  }

  /** No piece of `Split` contains a complete tag. */
  lemma {:induction false} SplitPiecesTagFree(s: string)
    ensures forall k :: 0 <= k < |Split(s)| ==> !HasTag(Split(s)[k])
    decreases |s|
  {
    assert !HasTag("");
    if s != [] {
      var n := TagLength(s);
      if n != 0 {
        SplitPiecesTagFree(s[n..]);
        assert Split(s)[1..] == Split(s[n..]);
      } else {
        SplitPiecesTagFree(s[1..]);
        SplitWeaves(s[1..]);
        var rest := Split(s[1..]);
        WeaveStartsWithFirst(rest, Tags(s[1..]));
        ConsTagFree(s, rest[0]);
        assert Split(s)[1..] == rest[1..];
      }
    }
  }

  /** The pieces and the tags of `Split` decompose the text. */
  lemma SplitDecomposes(s: string)
    ensures IsDecomposition(s, Split(s), Tags(s))
  {
    SplitWeaves(s);
    SplitCutsTags(s);
    SplitPiecesTagFree(s);
  }

  /** A tag-free text is a single piece. */
  lemma {:induction false} SplitTagFree(s: string)
    requires !HasTag(s)
    ensures Split(s) == [s] && Tags(s) == []
    decreases |s|
  {
    if s != [] {
      var n := TagLength(s);
      assert s[..n] == s[0..n];
      assert !IsTag(s[0..n]);
      assert !HasTag(s[1..]) by {
        forall i, j | 0 <= i < j <= |s[1..]|
          ensures !IsTag(s[1..][i..j])
        {
          assert s[1..][i..j] == s[i + 1..j + 1];
        }
      }
      SplitTagFree(s[1..]);
      assert s == [s[0]] + s[1..];
    }
  }

  /** Tag-free text followed by a tag: the text is the first piece and the
      tag the first tag. */
  lemma {:induction false} SplitAfterText(p: string, t: string, rest: string)
    requires !HasTag(p) && IsTag(t)
    ensures Split(p + t + rest) == [p] + Split(rest)
    ensures Tags(p + t + rest) == [t] + Tags(rest)
    decreases |p|
  {
    if p == [] {
      assert p + t + rest == t + rest;
      SplitAtTag(t, rest);
    } else {
      TextBeforeTag(p, t, rest);
      TailTagFree(p);
      SplitAfterText(p[1..], t, rest);
      SplitCharStep(p, t, rest);
      var ps := Split(p[1..] + t + rest);
      assert ps[0] == p[1..] && ps[1..] == Split(rest);
      assert [p[0]] + p[1..] == p;
    }
  }

  /** A tag at the front is cut out as the first tag behind an empty piece. */
  lemma SplitAtTag(t: string, rest: string)
    requires IsTag(t)
    ensures Split(t + rest) == [""] + Split(rest)
    ensures Tags(t + rest) == [t] + Tags(rest)
  {
    var s := t + rest;
    TagLengthOfTag(t, rest);
    assert s[..|t|] == t && s[|t|..] == rest;
  }

  /** Non-empty tag-free text before a tag: no tag starts at the front. */
  lemma TextBeforeTag(p: string, t: string, rest: string)
    requires p != [] && !HasTag(p) && IsTag(t)
    ensures TagLength(p + t + rest) == 0
  {
    var s := p + t + rest;
    forall j | 0 <= j <= |s|
      ensures !IsTag(s[..j])
    {
      if j <= |p| {
        assert s[..j] == p[0..j];
      } else if j > |p| + 1 {
        assert s[..j][|p|] == t[0];
      }
    }
  }

  /** Dropping the first character of tag-free text leaves it tag-free. */
  lemma TailTagFree(p: string)
    requires p != [] && !HasTag(p)
    ensures !HasTag(p[1..])
  {
    forall i, j | 0 <= i < j <= |p[1..]|
      ensures !IsTag(p[1..][i..j])
    {
      assert p[1..][i..j] == p[i + 1..j + 1];
    }
  }

  /** A character that starts no tag joins the first piece of the rest. */
  lemma SplitCharStep(p: string, t: string, rest: string)
    requires p != [] && TagLength(p + t + rest) == 0
    ensures Split(p + t + rest) == [[p[0]] + Split(p[1..] + t + rest)[0]] + Split(p[1..] + t + rest)[1..]
    ensures Tags(p + t + rest) == Tags(p[1..] + t + rest)
  {
    assert (p + t + rest)[1..] == p[1..] + t + rest;
  }

  /** The decomposition into tag-free text and tags is unique: `Split` is
      the only one. */
  lemma {:induction false} DecompositionUnique(s: string, pieces: seq<string>, tags: seq<string>)
    requires IsDecomposition(s, pieces, tags)
    ensures pieces == Split(s) && tags == Tags(s)
    decreases |tags|
  {
    if tags == [] {
      SplitTagFree(s);
    } else {
      var rest := Weave(pieces[1..], tags[1..]);
      assert IsDecomposition(rest, pieces[1..], tags[1..]);
      DecompositionUnique(rest, pieces[1..], tags[1..]);
      SplitAfterText(pieces[0], tags[0], rest);
      assert s == pieces[0] + tags[0] + rest;
      assert pieces == [pieces[0]] + pieces[1..];
      assert tags == [tags[0]] + tags[1..];
    }
  }

  /** `"".join(pieces)` */
  function Concat(pieces: seq<string>): string {
    if pieces == [] then "" else pieces[0] + Concat(pieces[1..])
  }

  /** `[piece for piece in pieces if piece != ""]` */
  function NonEmpty(pieces: seq<string>): (r: seq<string>)
    ensures forall k :: 0 <= k < |r| ==> r[k] != ""
    ensures forall x :: x in r <==> x in pieces && x != ""
    ensures Concat(r) == Concat(pieces)
  {
    if pieces == [] then []
    else if pieces[0] == "" then
      assert pieces == [pieces[0]] + pieces[1..];
      NonEmpty(pieces[1..])
    else
      var r := [pieces[0]] + NonEmpty(pieces[1..]);
      assert r[1..] == NonEmpty(pieces[1..]);
      r
  }

  /** The filter keeps the pieces of a list in their order: a single piece
      is kept exactly when it is not empty, and filtering a list filters
      each part of it in turn. */
  lemma NonEmptySingle(p: string)
    ensures NonEmpty([p]) == if p == "" then [] else [p]
  {
    assert [p][1..] == [];
  }

  lemma {:induction false} NonEmptyAppend(a: seq<string>, b: seq<string>)
    ensures NonEmpty(a + b) == NonEmpty(a) + NonEmpty(b)
    decreases |a|
  {
    if a == [] {
      assert a + b == b;
    } else {
      assert (a + b)[0] == a[0];
      assert (a + b)[1..] == a[1..] + b;
      NonEmptyAppend(a[1..], b);
    }
  }

  /** The token list `get_data` stores for a description. */
  function Tokenise(desc: string): (toks: seq<string>)
    ensures forall x :: x in toks <==> x in Split(desc) && x != ""
    ensures Concat(toks) == Concat(Split(desc))
  {
    NonEmpty(Split(desc))
  }

  /** No token is empty and no token contains a complete tag. */
  lemma TokensAreTagFreeText(desc: string)
    ensures forall k :: 0 <= k < |Tokenise(desc)| ==> Tokenise(desc)[k] != ""
    ensures forall k :: 0 <= k < |Tokenise(desc)| ==> !HasTag(Tokenise(desc)[k])
  {
    SplitDecomposes(desc);
    var pieces := Split(desc);
    forall k | 0 <= k < |Tokenise(desc)|
      ensures !HasTag(Tokenise(desc)[k])
    {
      var x := Tokenise(desc)[k];
      assert x in Tokenise(desc);
      var m :| 0 <= m < |pieces| && pieces[m] == x;
    }
  }

  /** The tokens, put back together, are the description with every tag
      removed: the description is the tag-free pieces woven with the
      matched tags, and the tokens concatenate to the pieces. */
  lemma TokensRejoin(desc: string)
    ensures |Split(desc)| == |Tags(desc)| + 1
    ensures Weave(Split(desc), Tags(desc)) == desc
    ensures forall k :: 0 <= k < |Tags(desc)| ==> IsTag(Tags(desc)[k])
    ensures Concat(Tokenise(desc)) == Concat(Split(desc))
  {
    SplitDecomposes(desc);
  }

  /** A non-empty description without any '<' is a single token. */
  lemma PlainTextIsOneToken(desc: string)
    requires desc != "" && '<' !in desc
    ensures Tokenise(desc) == [desc]
  {
    assert !HasTag(desc) by {
      forall i, j | 0 <= i < j <= |desc|
        ensures !IsTag(desc[i..j])
      {
        assert desc[i..j][0] == desc[i];
      }
    }
    SplitTagFree(desc);
    assert NonEmpty([desc]) == [desc] + NonEmpty([]);
  }

  /** A description made of tags only yields no token. */
  lemma {:induction false} OnlyTagsGiveNoTokens(tags: seq<string>)
    requires forall k :: 0 <= k < |tags| ==> IsTag(tags[k])
    ensures Tokenise(Concat(tags)) == []
    decreases |tags|
  {
    assert !HasTag("");
    if tags == [] {
      assert Split("") == [""];
    } else {
      var rest := Concat(tags[1..]);
      OnlyTagsGiveNoTokens(tags[1..]);
      assert Concat(tags) == "" + tags[0] + rest;
      SplitAfterText("", tags[0], rest);
      var pieces := Split(Concat(tags));
      assert pieces[0] == "" && pieces[1..] == Split(rest);
    }
  }
}
