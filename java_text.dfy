/** The few java.lang.String operations the worker relies on, with Java's
    semantics: `endsWith`, `trim` and `split` on a literal separator.
    Characters stand for the bytes of the ASCII protocol, one for one. */
module JavaText {

  /** `s.endsWith(suffix)` */
  predicate EndsWith(s: string, suffix: string)
  {
    |suffix| <= |s| && s[|s| - |suffix|..] == suffix
  }

  /** `String.trim` removes every leading and trailing character whose code is
      at most U+0020 (spaces, CR, LF and the other control characters). */
  predicate IsTrimmed(c: char)
  {
    c <= ' '
  }

  function TrimStart(s: string): (r: string)
    ensures |r| <= |s| && r == s[|s| - |r|..]
    ensures r == [] || !IsTrimmed(r[0])
    ensures forall i :: 0 <= i < |s| - |r| ==> IsTrimmed(s[i])
  {
    if s != [] && IsTrimmed(s[0]) then TrimStart(s[1..]) else s
  }

  function TrimEnd(s: string): (r: string)
    ensures |r| <= |s| && r == s[..|r|]
    ensures r == [] || !IsTrimmed(r[|r| - 1])
    ensures forall i :: |r| <= i < |s| ==> IsTrimmed(s[i])
  {
    if s != [] && IsTrimmed(s[|s| - 1]) then TrimEnd(s[..|s| - 1]) else s
  }

  /** `s.trim()`: the longest infix of `s` that neither starts nor ends with a
      trimmed character. */
  function Trim(s: string): (r: string)
    ensures |r| <= |s|
    ensures r == [] || (!IsTrimmed(r[0]) && !IsTrimmed(r[|r| - 1]))
    // `r` is `s` with only trimmed characters removed, and only at the ends
    ensures exists a, b :: (0 <= a <= b <= |s| && r == s[a..b] &&
      forall i :: 0 <= i < |s| && (i < a || b <= i) ==> IsTrimmed(s[i]))
  {
    TrimIsInfix(s);
    TrimEnd(TrimStart(s))
  }

  /** The trimmed text starts where the leading trimmed characters end. */
  lemma TrimIsInfix(s: string)
    ensures var a, r := |s| - |TrimStart(s)|, TrimEnd(TrimStart(s));
      a + |r| <= |s| && r == s[a..a + |r|] &&
      forall i :: 0 <= i < |s| && (i < a || a + |r| <= i) ==> IsTrimmed(s[i])
  {
    var t := TrimStart(s);
    var r := TrimEnd(t);
    var a := |s| - |t|;
    assert t == s[a..];
    assert r == t[..|r|];
    forall i | a + |r| <= i < |s|
      ensures IsTrimmed(s[i])
    {
      assert s[i] == t[i - a];
    }
  }

  /** Number of matches of `sep` found by scanning `s` left to right, each
      match resuming the scan after its own end (java.util.regex.Matcher.find). */
  function Occurrences(s: string, sep: string): nat
    requires |sep| > 0
    decreases |s|
  {
    if |s| < |sep| then 0
    else if s[..|sep|] == sep then 1 + Occurrences(s[|sep|..], sep)
    else Occurrences(s[1..], sep)
  }

  /** The pieces between the matches of `sep`, empty ones included: the list
      `Pattern.split` builds before it drops trailing empty strings. */
  function Pieces(s: string, sep: string): (r: seq<string>)
    requires |sep| > 0
    ensures |r| == Occurrences(s, sep) + 1
    decreases |s|
  {
    if |s| < |sep| then [s]
    else if s[..|sep|] == sep then [""] + Pieces(s[|sep|..], sep)
    else
      var t := Pieces(s[1..], sep);
      [[s[0]] + t[0]] + t[1..]
  }

  /** The inverse of `Pieces`: the pieces glued back with the separator. */
  function Join(p: seq<string>, sep: string): string
  {
    if p == [] then ""
    else if |p| == 1 then p[0]
    else p[0] + sep + Join(p[1..], sep)
  }

  function DropTrailingEmpty(p: seq<string>): (r: seq<string>)
    ensures |r| <= |p| && r == p[..|r|]
    ensures r == [] || r[|r| - 1] != ""
    ensures forall i :: |r| <= i < |p| ==> p[i] == ""
  {
    if p == [] then []
    else if p[|p| - 1] == "" then DropTrailingEmpty(p[..|p| - 1])
    else p
  }

  /** `s.split(sep)` with the default limit 0: when nothing matches the whole
      input is the only element; otherwise the pieces without trailing empty
      strings (so the result can even be empty, for instance when `s == sep`). */
  function Split(s: string, sep: string): seq<string>
    requires |sep| > 0
  {
    if Occurrences(s, sep) == 0 then [s] else DropTrailingEmpty(Pieces(s, sep))
  }

  lemma Halves(s: string, k: nat)
    requires k <= |s|
    ensures s == s[..k] + s[k..]
  {
  }

  lemma JoinCons(x: string, rest: seq<string>, sep: string)
    requires rest != []
    ensures Join([x] + rest, sep) == x + sep + Join(rest, sep)
  {
    assert ([x] + rest)[1..] == rest;
  }

  lemma Associate(a: string, b: string, c: string, d: string)
    ensures a + b + c + d == a + (b + c + d)
  {
  }

  lemma {:induction false} JoinPieces(s: string, sep: string)
    requires |sep| > 0
    ensures Join(Pieces(s, sep), sep) == s
    decreases |s|
  {
    if |s| < |sep| {
    } else if s[..|sep|] == sep {
      JoinPieces(s[|sep|..], sep);
      JoinPiecesAtMatch(s, sep);
    } else {
      JoinPieces(s[1..], sep);
      JoinPiecesPastChar(s, sep);
    }
  }

  lemma JoinPiecesAtMatch(s: string, sep: string)
    requires |sep| > 0 && |s| >= |sep| && s[..|sep|] == sep
    requires Join(Pieces(s[|sep|..], sep), sep) == s[|sep|..]
    ensures Join(Pieces(s, sep), sep) == s
  {
    var tail := s[|sep|..];
    PiecesAtMatch(s, sep);
    JoinAfterEmpty(Pieces(tail, sep), sep, tail);
    Halves(s, |sep|);
  }

  lemma JoinPiecesPastChar(s: string, sep: string)
    requires |sep| > 0 && |s| >= |sep| && s[..|sep|] != sep
    requires Join(Pieces(s[1..], sep), sep) == s[1..]
    ensures Join(Pieces(s, sep), sep) == s
  {
    var t := Pieces(s[1..], sep);
    PiecesPastChar(s, sep);
    JoinPrepend(s[0], t, sep);
    Halves(s, 1);
    assert s[..1] == [s[0]];
  }

  /** A match at the front starts the pieces with an empty one. */
  lemma PiecesAtMatch(s: string, sep: string)
    requires |sep| > 0 && |s| >= |sep| && s[..|sep|] == sep
    ensures Pieces(s, sep) == [""] + Pieces(s[|sep|..], sep)
  {
  }

  /** A character that starts no match belongs to the first piece. */
  lemma PiecesPastChar(s: string, sep: string)
    requires |sep| > 0 && |s| >= |sep| && s[..|sep|] != sep
    ensures var t := Pieces(s[1..], sep); Pieces(s, sep) == [[s[0]] + t[0]] + t[1..]
  {
  }

  lemma JoinAfterEmpty(rest: seq<string>, sep: string, tail: string)
    requires rest != [] && Join(rest, sep) == tail
    ensures Join([""] + rest, sep) == sep + tail
  {
    var p := [""] + rest;
    assert p[1..] == rest;
    assert Join(p, sep) == "" + sep + tail;
    assert "" + sep == sep;
  }

  /** Gluing a character in front of the first piece glues it in front of the
      joined text. */
  lemma JoinPrepend(c: char, t: seq<string>, sep: string)
    requires t != []
    ensures Join([[c] + t[0]] + t[1..], sep) == [c] + Join(t, sep)
  {
    var head := [c] + t[0];
    if |t| == 1 {
      assert [head] + t[1..] == [head];
    } else {
      calc {
        Join([head] + t[1..], sep);
        { JoinCons(head, t[1..], sep); }
        head + sep + Join(t[1..], sep);
        { Associate([c], t[0], sep, Join(t[1..], sep)); }
        [c] + (t[0] + sep + Join(t[1..], sep));
        { JoinCons(t[0], t[1..], sep); assert t == [t[0]] + t[1..]; }
        [c] + Join(t, sep);
      }
    }
  }

  /** If `s` does not end with the separator, the scan does not end on a match:
      the last piece is not empty. */
  lemma {:induction false} LastPieceNonEmpty(s: string, sep: string)
    requires |sep| > 0
    requires s != "" && !EndsWith(s, sep)
    ensures Pieces(s, sep)[|Pieces(s, sep)| - 1] != ""
    decreases |s|
  {
    if |s| < |sep| {
    } else if s[..|sep|] == sep {
      var rest := s[|sep|..];
      SuffixOfSuffix(s, |sep|, sep);
      LastPieceNonEmpty(rest, sep);
      LastPieceAfterMatch(s, sep);
    } else {
      var t := Pieces(s[1..], sep);
      if |t| > 1 {
        SuffixOfSuffix(s, 1, sep);
        LastPieceNonEmpty(s[1..], sep);
      }
      LastPieceAfterChar(s, sep);
    }
  }

  lemma SuffixOfSuffix(s: string, k: nat, sep: string)
    requires k <= |s| && !EndsWith(s, sep)
    ensures !EndsWith(s[k..], sep)
  {
    if |sep| <= |s| - k {
      assert s[k..][|s| - k - |sep|..] == s[|s| - |sep|..];
    }
  }

  lemma LastPieceAfterMatch(s: string, sep: string)
    requires |sep| > 0 && |s| >= |sep| && s[..|sep|] == sep
    ensures var p := Pieces(s, sep); var q := Pieces(s[|sep|..], sep);
      p[|p| - 1] == q[|q| - 1]
  {
    PiecesAtMatch(s, sep);
    LastAfterPrepend("", Pieces(s[|sep|..], sep));
  }

  lemma LastAfterPrepend(x: string, q: seq<string>)
    requires q != []
    ensures var p := [x] + q; p[|p| - 1] == q[|q| - 1]
  {
  }

  lemma LastPieceAfterChar(s: string, sep: string)
    requires |sep| > 0 && |s| >= |sep| && s[..|sep|] != sep
    ensures var p := Pieces(s, sep); var t := Pieces(s[1..], sep);
      p[|p| - 1] == if |t| == 1 then [s[0]] + t[0] else t[|t| - 1]
  {
    var t := Pieces(s[1..], sep);
    var p := [[s[0]] + t[0]] + t[1..];
    assert Pieces(s, sep) == p;
    assert |p| == |t|;
    if |t| > 1 {
      assert p[|p| - 1] == t[1..][|t| - 2];
    }
  }

  /** When `s` does not end with `sep`, `split` drops nothing: it yields one
      element more than there are matches, and joins back to `s`. */
  lemma SplitKeepsEveryPiece(s: string, sep: string)
    requires |sep| > 0
    requires !EndsWith(s, sep)
    ensures |Split(s, sep)| == Occurrences(s, sep) + 1
    ensures Join(Split(s, sep), sep) == s
  {
    if Occurrences(s, sep) > 0 {
      assert s != "";
      LastPieceNonEmpty(s, sep);
      JoinPieces(s, sep);
    }
  }
}
