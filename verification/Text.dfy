/**
 The string helpers the modelled code leans on: trimming, splitting and joining.
 */
module Text {

  /** The characters strings.TrimSpace removes (Unicode White_Space). */
  predicate IsSpace(c: char) {
    || c in "\t\n\r "
    || c == '\U{0B}' || c == '\U{0C}' || c == '\U{85}' || c == '\U{A0}' || c == '\U{1680}'
    || '\U{2000}' <= c <= '\U{200A}'
    || c == '\U{2028}' || c == '\U{2029}' || c == '\U{202F}' || c == '\U{205F}' || c == '\U{3000}'
  }

  function TrimLeft(s: string, cut: char -> bool): string {
    if s == "" || !cut(s[0]) then s else TrimLeft(s[1..], cut)
  }

  function TrimRight(s: string, cut: char -> bool): string {
    if s == "" || !cut(s[|s| - 1]) then s else TrimRight(s[..|s| - 1], cut)
  }

  function Trim(s: string, cut: char -> bool): string {
    TrimRight(TrimLeft(s, cut), cut)
  }

  function TrimSpace(s: string): string {
    Trim(s, IsSpace)
  }

  ghost predicate Trimmed(s: string, cut: char -> bool) {
    s == "" || (!cut(s[0]) && !cut(s[|s| - 1]))
  }

  lemma {:induction false} TrimLeftTrims(s: string, cut: char -> bool)
    ensures var t := TrimLeft(s, cut); t == "" || !cut(t[0])
  {
    if s != "" && cut(s[0]) { TrimLeftTrims(s[1..], cut); }
  }

  lemma {:induction false} TrimRightTrims(s: string, cut: char -> bool)
    requires s == "" || !cut(s[0])
    ensures Trimmed(TrimRight(s, cut), cut)
  {
    if s != "" && cut(s[|s| - 1]) { TrimRightTrims(s[..|s| - 1], cut); }
  }

  /** The result has nothing left to trim, and a string with nothing to trim is returned as it is. */
  lemma TrimIsIdempotent(s: string, cut: char -> bool)
    ensures Trimmed(Trim(s, cut), cut) && Trim(Trim(s, cut), cut) == Trim(s, cut)
    ensures Trimmed(s, cut) ==> Trim(s, cut) == s
  {
    TrimLeftTrims(s, cut);
    TrimRightTrims(TrimLeft(s, cut), cut);
  }

  /** What is cut off at either end. */
  lemma {:induction false} TrimLeftCuts(s: string, cut: char -> bool) returns (pre: string)
    ensures s == pre + TrimLeft(s, cut) && forall c :: c in pre ==> cut(c)
  {
    pre := "";
    if s != "" && cut(s[0]) {
      pre := TrimLeftCuts(s[1..], cut);
      pre := [s[0]] + pre;
    }
  }

  lemma {:induction false} TrimRightCuts(s: string, cut: char -> bool) returns (post: string)
    ensures s == TrimRight(s, cut) + post && forall c :: c in post ==> cut(c)
  {
    post := "";
    if s != "" && cut(s[|s| - 1]) {
      post := TrimRightCuts(s[..|s| - 1], cut);
      post := post + [s[|s| - 1]];
    }
  }

  /** Trimming takes away characters of the cut set at both ends, as many as there are, and nothing else. */
  lemma TrimParts(s: string, cut: char -> bool) returns (pre: string, post: string)
    ensures s == pre + Trim(s, cut) + post && Trimmed(Trim(s, cut), cut)
    ensures (forall c :: c in pre ==> cut(c)) && forall c :: c in post ==> cut(c)
  {
    TrimIsIdempotent(s, cut);
    pre := TrimLeftCuts(s, cut);
    post := TrimRightCuts(TrimLeft(s, cut), cut);
  }

  /** Splits at every separator; the empty sequence is one empty piece. */
  function Split<T(==)>(s: seq<T>, sep: T): (pieces: seq<seq<T>>)
    ensures pieces != []
  {
    if s == [] then [[]]
    else
      var rest := Split(s[1..], sep);
      if s[0] == sep then [[]] + rest else [[s[0]] + rest[0]] + rest[1..]
  }

  function Join(pieces: seq<string>, sep: char): string {
    if pieces == [] then ""
    else if |pieces| == 1 then pieces[0]
    else pieces[0] + [sep] + Join(pieces[1..], sep)
  }

  lemma {:induction false} SplitWithout<T>(a: seq<T>, sep: T)
    requires sep !in a
    ensures Split(a, sep) == [a]
  {
    if a != [] {
      SplitWithout(a[1..], sep);
      assert [a[0]] + a[1..] == a;
    }
  }

  lemma {:induction false} SplitAtFirst<T>(a: seq<T>, b: seq<T>, sep: T)
    requires sep !in a
    ensures Split(a + [sep] + b, sep) == [a] + Split(b, sep)
  {
    var s := a + [sep] + b;
    if a == [] {
      assert s[1..] == b;
    } else {
      SplitAtFirst(a[1..], b, sep);
      assert s[1..] == a[1..] + [sep] + b;
      assert [a[0]] + a[1..] == a;
    }
  }

  /** Splitting undoes joining for pieces that do not contain the separator. */
  lemma {:induction false} SplitJoin(pieces: seq<string>, sep: char)
    requires pieces != [] && forall p :: p in pieces ==> sep !in p
    ensures Split(Join(pieces, sep), sep) == pieces
  {
    if |pieces| == 1 {
      SplitWithout(pieces[0], sep);
    } else {
      assert forall p :: p in pieces[1..] ==> p in pieces;
      SplitJoin(pieces[1..], sep);
      SplitAtFirst(pieces[0], Join(pieces[1..], sep), sep);
    }
  }

  /** Pieces that are not empty leave no separator at either end of the joined string. */
  lemma {:induction false} JoinEnds(pieces: seq<string>, sep: char)
    requires pieces != [] && forall p :: p in pieces ==> sep !in p && p != ""
    ensures var j := Join(pieces, sep); j != "" && j[0] != sep && j[|j| - 1] != sep
  {
    assert pieces[0] in pieces && pieces[0][0] in pieces[0] && pieces[0][|pieces[0]| - 1] in pieces[0];
    if |pieces| > 1 {
      assert forall p :: p in pieces[1..] ==> p in pieces;
      JoinEnds(pieces[1..], sep);
    }
  }
}
