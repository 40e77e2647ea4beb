/** The JavaScript string operations the other modules rely on, over ASCII. */
module Text {

  /** Whitespace as `trim` and `parseInt` see it. */
  predicate IsSpace(c: char) {
    c == ' ' || '\t' <= c <= '\r'
  }

  function TrimStart(s: string): string {
    if s != "" && IsSpace(s[0]) then TrimStart(s[1..]) else s
  }

  function TrimEnd(s: string): string {
    if s != "" && IsSpace(s[|s| - 1]) then TrimEnd(s[..|s| - 1]) else s
  }

  function Trim(s: string): string {
    TrimEnd(TrimStart(s))
  }

  function LowerChar(c: char): char {
    if 'A' <= c <= 'Z' then (c as int + 32) as char else c
  }

  function ToLower(s: string): string {
    if s == "" then "" else [LowerChar(s[0])] + ToLower(s[1..])
  }

  /** `s.includes(sub)` */
  predicate Contains(s: string, sub: string) {
    sub <= s || (s != "" && Contains(s[1..], sub))
  }

  /** `s.split(sep)` for a one-character separator: always at least one part. */
  function Split(s: string, sep: char): (parts: seq<string>)
    ensures |parts| >= 1
  {
    if s == "" then [""]
    else
      var rest := Split(s[1..], sep);
      if s[0] == sep then [""] + rest else [[s[0]] + rest[0]] + rest[1..]
  }

  /** `parts.join(sep)` */
  function Join(parts: seq<string>, sep: char): string {
    if parts == [] then ""
    else if |parts| == 1 then parts[0]
    else parts[0] + [sep] + Join(parts[1..], sep)
  }

  /** Splitting a piece free of separators, followed by a separator, peels that piece off. */
  lemma {:induction false} SplitPiece(piece: string, rest: string, sep: char)
    requires sep !in piece
    ensures Split(piece + [sep] + rest, sep) == [piece] + Split(rest, sep)
  {
    var s := piece + [sep] + rest;
    if piece == "" {
      assert s[1..] == rest;
    } else {
      assert s[1..] == piece[1..] + [sep] + rest;
      SplitPiece(piece[1..], rest, sep);
      assert [s[0]] + piece[1..] == piece;
    }
  }

  lemma {:induction false} SplitConcat(a: string, b: string, sep: char)
    ensures Split(a + [sep] + b, sep) == Split(a, sep) + Split(b, sep)
  {
    var s := a + [sep] + b;
    if a == "" {
      assert s[1..] == b;
    } else {
      assert s[1..] == a[1..] + [sep] + b;
      SplitConcat(a[1..], b, sep);
    }
  }

  lemma {:induction false} SplitWhole(piece: string, sep: char)
    requires sep !in piece
    ensures Split(piece, sep) == [piece]
  {
    if piece == "" {
    } else {
      SplitWhole(piece[1..], sep);
      assert [piece[0]] + piece[1..] == piece;
    }
  }

  /** Splitting undoes joining, for any non-empty list of separator-free parts. */
  lemma {:induction false} SplitOfJoin(parts: seq<string>, sep: char)
    requires parts != [] && forall p :: p in parts ==> sep !in p
    ensures Split(Join(parts, sep), sep) == parts
  {
    if |parts| == 1 {
      SplitWhole(parts[0], sep);
    } else {
      SplitPiece(parts[0], Join(parts[1..], sep), sep);
      SplitOfJoin(parts[1..], sep);
    }
  }

  // ---------------------------------------------------------------------------------------
  // What trimming, folding and searching mean
  // ---------------------------------------------------------------------------------------

  lemma BlankChars(c: char)
    ensures IsSpace(c) <==> c in {' ', '\t', '\n', 11 as char, 12 as char, '\r'}
  {
    if '\t' <= c <= '\r' {
      assert c as int in {9, 10, 11, 12, 13};
      assert c == (c as int) as char;
    }
  }

  lemma {:induction false} LowerAt(s: string)
    ensures |ToLower(s)| == |s| && forall i :: 0 <= i < |s| ==> ToLower(s)[i] == LowerChar(s[i])
  {
    if s == "" {
    } else {
      LowerAt(s[1..]);
    }
  }

  /** The 26 capitals become the letters 32 places on; nothing else changes. */
  lemma LowerMeans(s: string)
    ensures |ToLower(s)| == |s|
    ensures forall i :: 0 <= i < |s| ==>
              ToLower(s)[i] as int == s[i] as int + if 65 <= s[i] as int <= 90 then 32 else 0
    ensures ToLower("ABCDEFGHIJKLMNOPQRSTUVWXYZ") == "abcdefghijklmnopqrstuvwxyz"
  {
    LowerAt(s);
    LowerAt("ABCDEFGHIJKLMNOPQRSTUVWXYZ");
    hide ToLower;
  }

  lemma {:induction false} ContainsChar(s: string, sub: string, c: char)
    requires Contains(s, sub) && c in sub
    ensures c in s
  {
    if sub <= s {
      var i :| 0 <= i < |sub| && sub[i] == c;
      assert s[i] == c;
    } else {
      ContainsChar(s[1..], sub, c);
    }
  }

  lemma {:induction false} TrimStartKeeps(s: string, c: char)
    requires c in s && !IsSpace(c)
    ensures c in TrimStart(s)
  {
    if s == "" || !IsSpace(s[0]) {
    } else {
      assert s == [s[0]] + s[1..];
      TrimStartKeeps(s[1..], c);
    }
  }

  lemma {:induction false} TrimEndKeeps(s: string, c: char)
    requires c in s && !IsSpace(c)
    ensures c in TrimEnd(s)
  {
    if s == "" || !IsSpace(s[|s| - 1]) {
    } else {
      assert s == s[..|s| - 1] + [s[|s| - 1]];
      TrimEndKeeps(s[..|s| - 1], c);
    }
  }

  lemma {:induction false} TrimStartOfBlank(s: string)
    ensures TrimStart(s + " ") == if TrimStart(s) == "" then "" else TrimStart(s) + " "
  {
    if s == "" {
      assert (s + " ")[1..] == "";
    } else if IsSpace(s[0]) {
      assert (s + " ")[1..] == s[1..] + " ";
      TrimStartOfBlank(s[1..]);
    }
  }

  /** A blank at the end does not survive trimming. */
  lemma {:induction false} TrimDropsBlank(s: string)
    ensures Trim(s + " ") == Trim(s)
  {
    TrimStartOfBlank(s);
    var start := TrimStart(s);
    assert (start + " ")[..|start|] == start;
  }

  ghost predicate IsBlank(s: string) {
    forall c :: c in s ==> IsSpace(c)
  }

  lemma {:induction false} TrimStartMeans(s: string) returns (before: string)
    ensures s == before + TrimStart(s) && IsBlank(before) && (TrimStart(s) != "" ==> !IsSpace(TrimStart(s)[0]))
  {
    if s == "" || !IsSpace(s[0]) {
      before := "";
    } else {
      var rest := TrimStartMeans(s[1..]);
      before := [s[0]] + rest;
    }
  }

  lemma {:induction false} TrimEndMeans(s: string) returns (after: string)
    ensures s == TrimEnd(s) + after && IsBlank(after) && (TrimEnd(s) != "" ==> !IsSpace(TrimEnd(s)[|TrimEnd(s)| - 1]))
  {
    if s == "" || !IsSpace(s[|s| - 1]) {
      after := "";
    } else {
      var rest := TrimEndMeans(s[..|s| - 1]);
      after := rest + [s[|s| - 1]];
    }
  }

  /** Trimming cuts off blanks at both ends, all of them and nothing else. */
  lemma TrimMeans(s: string) returns (before: string, after: string)
    ensures s == before + Trim(s) + after && IsBlank(before) && IsBlank(after)
    ensures Trim(s) != "" ==> !IsSpace(Trim(s)[0]) && !IsSpace(Trim(s)[|Trim(s)| - 1])
  {
    before := TrimStartMeans(s);
    after := TrimEndMeans(TrimStart(s));
    assert Trim(s) != "" ==> Trim(s)[0] == TrimStart(s)[0];
  }

  predicate OccursAt(s: string, sub: string, i: nat) {
    i + |sub| <= |s| && s[i..i + |sub|] == sub
  }

  /** Containing is occurring somewhere. */
  lemma {:induction false} ContainsMeans(s: string, sub: string)
    ensures Contains(s, sub) <==> exists i: nat :: OccursAt(s, sub, i)
  {
    if s == "" {
      assert OccursAt(s, sub, 0) <==> sub == "";
    } else {
      ContainsMeans(s[1..], sub);
      assert sub <= s <==> OccursAt(s, sub, 0);
      forall i: nat ensures OccursAt(s[1..], sub, i) <==> OccursAt(s, sub, i + 1) {
        if i + 1 + |sub| <= |s| { assert s[1..][i..i + |sub|] == s[i + 1..i + 1 + |sub|]; }
      }
      if exists i: nat :: OccursAt(s, sub, i) {
        var i: nat :| OccursAt(s, sub, i);
        assert i > 0 ==> OccursAt(s[1..], sub, i - 1);
      }
      if exists i: nat :: OccursAt(s[1..], sub, i) {
        var i: nat :| OccursAt(s[1..], sub, i);
        assert OccursAt(s, sub, i + 1);
      }
    }
  }

  /** A word without the separator lies on one side of it. */
  lemma ContainsAround(a: string, sep: char, b: string, word: string)
    requires word != "" && sep !in word
    ensures Contains(a + [sep] + b, word) <==> Contains(a, word) || Contains(b, word)
  {
    var s := a + [sep] + b;
    ContainsMeans(s, word);
    ContainsMeans(a, word);
    ContainsMeans(b, word);
    hide Contains;
    if Contains(a, word) {
      var i: nat :| OccursAt(a, word, i);
      assert s[i..i + |word|] == a[i..i + |word|];
      assert OccursAt(s, word, i);
    }
    if Contains(b, word) {
      var i: nat :| OccursAt(b, word, i);
      var j := |a| + 1 + i;
      assert s[j..j + |word|] == b[i..i + |word|];
      assert OccursAt(s, word, j);
    }
    if Contains(s, word) {
      var i: nat :| OccursAt(s, word, i);
      if i > |a| {
        var j := i - |a| - 1;
        assert b[j..j + |word|] == s[i..i + |word|];
        assert OccursAt(b, word, j);
      } else {
        assert s[|a|] == sep;
        assert forall k :: 0 <= k < |word| ==> word[k] in word && s[i + k] == word[k];
        assert i + |word| <= |a|;
        assert a[i..i + |word|] == s[i..i + |word|];
        assert OccursAt(a, word, i);
      }
    }
  }

  /** A word without the separator is in a joined list exactly if it is in one of the parts. */
  lemma {:induction false} ContainsJoin(parts: seq<string>, sep: char, word: string)
    requires word != "" && sep !in word
    ensures Contains(Join(parts, sep), word) <==> exists p :: p in parts && Contains(p, word)
  {
    if parts == [] {
    } else if |parts| == 1 {
      assert parts[0] in parts;
    } else {
      ContainsAround(parts[0], sep, Join(parts[1..], sep), word);
      ContainsJoin(parts[1..], sep, word);
      assert parts == [parts[0]] + parts[1..];
    }
  }

  lemma {:induction false} LowerConcat(a: string, b: string)
    ensures ToLower(a + b) == ToLower(a) + ToLower(b)
  {
    if a == "" {
      assert a + b == b;
    } else {
      assert (a + b)[1..] == a[1..] + b;
      LowerConcat(a[1..], b);
    }
  }

  function LowerAll(parts: seq<string>): (lowered: seq<string>)
    ensures |lowered| == |parts| && forall i :: 0 <= i < |parts| ==> lowered[i] == ToLower(parts[i])
  {
    if parts == [] then [] else [ToLower(parts[0])] + LowerAll(parts[1..])
  }

  lemma {:induction false} LowerJoin(parts: seq<string>)
    ensures ToLower(Join(parts, ' ')) == Join(LowerAll(parts), ' ')
  {
    if |parts| <= 1 {
    } else {
      LowerConcat(parts[0] + " ", Join(parts[1..], ' '));
      LowerConcat(parts[0], " ");
      assert ToLower(" ") == " ";
      LowerJoin(parts[1..]);
      assert LowerAll(parts)[1..] == LowerAll(parts[1..]);
    }
  }
}
