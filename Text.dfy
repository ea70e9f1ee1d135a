/** The string operations of the .NET base library that the program relies on, with ordinal semantics. */
module Text {

  /** `s` cut at every occurrence of `c`, as `String.Split(c)` with no options: empty pieces are kept. */
  function Split(s: string, c: char): (r: seq<string>)
    ensures |r| >= 1
    ensures forall i :: 0 <= i < |r| ==> c !in r[i]
    decreases |s|
  {
    if |s| == 0 then [""]
    else
      var rest := Split(s[1..], c);
      if s[0] == c then [""] + rest
      else
        assert c !in [s[0]] + rest[0];
        [[s[0]] + rest[0]] + rest[1..]
  }

  /** The pieces glued back together with `c` between them. */
  function Join(pieces: seq<string>, c: char): string
    requires |pieces| >= 1
  {
    if |pieces| == 1 then pieces[0] else pieces[0] + [c] + Join(pieces[1..], c)
  }

  /** The number of occurrences of `c` in `s`. */
  function Occurrences(s: string, c: char): nat
  {
    if s == [] then 0 else (if s[0] == c then 1 else 0) + Occurrences(s[1..], c)
  }

  /** Without the separator there is a single piece, the whole string. */
  lemma {:induction false} SplitWithoutSeparator(s: string, c: char)
    requires c !in s
    ensures Split(s, c) == [s]
  {
    if |s| > 0 {
      assert c !in s[1..] by { assert forall i :: 0 <= i < |s[1..]| ==> s[1..][i] == s[i + 1]; }
      SplitWithoutSeparator(s[1..], c);
      assert [s[0]] + s[1..] == s;
    }
  }

  /**
   * The first piece of any string is the text before its first separator; when there is a
   * separator, the other pieces are those of the text after it, and otherwise there are none.
   */
  lemma {:induction false} SplitFirstPiece(s: string, c: char)
    ensures var k := Split(s, c)[0];
            && |k| <= |s| && k == s[..|k|] && c !in k
            && (|k| < |s| ==> s[|k|] == c && Split(s, c) == [k] + Split(s[|k| + 1..], c))
            && (|k| == |s| ==> Split(s, c) == [s])
    decreases |s|
  {
    if |s| > 0 && s[0] != c {
      var rest := Split(s[1..], c);
      SplitFirstPiece(s[1..], c);
      var k' := rest[0];
      var k := [s[0]] + k';
      assert Split(s, c) == [k] + rest[1..];
      assert s[..|k|] == [s[0]] + s[1..][..|k'|];
      assert c !in k;
      if |k| < |s| {
        assert s[|k|] == s[1..][|k'|];
        assert s[1..][|k'| + 1..] == s[|k| + 1..];
      } else {
        assert s == [s[0]] + s[1..];
      }
    }
  }

  /** A string splits into more than one piece exactly when it holds the separator. */
  lemma SplitMany(s: string, c: char)
    ensures |Split(s, c)| >= 2 <==> c in s
  {
    SplitFirstPiece(s, c);
    var k := Split(s, c)[0];
    if |k| == |s| {
      assert k == s;
    }
  }

  /** The first piece is everything before the first separator; the remaining pieces are those of the rest. */
  lemma {:induction false} SplitAtFirst(a: string, c: char, b: string)
    requires c !in a
    ensures Split(a + [c] + b, c) == [a] + Split(b, c)
    decreases |a|
  {
    var s := a + [c] + b;
    if |a| == 0 {
      assert s[1..] == b;
    } else {
      assert s[1..] == a[1..] + [c] + b;
      assert c !in a[1..] by { assert forall i :: 0 <= i < |a[1..]| ==> a[1..][i] == a[i + 1]; }
      SplitAtFirst(a[1..], c, b);
      assert [s[0]] + a[1..] == a;
    }
  }

  /** Splitting and joining again gives back the original string. */
  lemma {:induction false} JoinSplit(s: string, c: char)
    ensures Join(Split(s, c), c) == s
    decreases |s|
  {
    if |s| > 0 {
      var rest := Split(s[1..], c);
      JoinSplit(s[1..], c);
      if s[0] == c {
        assert Split(s, c) == [""] + rest;
        assert ([""] + rest)[1..] == rest;
        assert s == [c] + s[1..];
      } else {
        var r := Split(s, c);
        assert r == [[s[0]] + rest[0]] + rest[1..];
        if |rest| == 1 {
          assert s == [s[0]] + rest[0];
        } else {
          assert r[1..] == rest[1..];
          assert Join(rest, c) == rest[0] + [c] + Join(rest[1..], c);
          assert s == [s[0]] + s[1..];
        }
      }
    }
  }

  /** Joining pieces that do not contain the separator and splitting again gives back the pieces. */
  lemma {:induction false} SplitJoin(pieces: seq<string>, c: char)
    requires |pieces| >= 1
    requires forall i :: 0 <= i < |pieces| ==> c !in pieces[i]
    ensures Split(Join(pieces, c), c) == pieces
  {
    if |pieces| == 1 {
      SplitWithoutSeparator(pieces[0], c);
    } else {
      SplitJoin(pieces[1..], c);
      SplitAtFirst(pieces[0], c, Join(pieces[1..], c));
      assert [pieces[0]] + pieces[1..] == pieces;
    }
  }

  /** There is one piece more than there are separators. */
  lemma {:induction false} SplitLength(s: string, c: char)
    ensures |Split(s, c)| == Occurrences(s, c) + 1
    decreases |s|
  {
    if |s| > 0 {
      SplitLength(s[1..], c);
    }
  }

  /** `s` occurs in `text` starting at position `k`. */
  predicate OccursAt(text: string, s: string, k: int)
  {
    0 <= k && k + |s| <= |text| && text[k..k + |s|] == s
  }

  /** `String.IndexOf(s)`: the first position where `s` occurs in `text`, or -1 when it does not occur. */
  function IndexOf(text: string, s: string): (r: int)
    ensures r == -1 || OccursAt(text, s, r)
    ensures r == -1 ==> forall k :: !OccursAt(text, s, k)
    ensures forall k :: 0 <= k < r ==> !OccursAt(text, s, k)
  {
    IndexFrom(text, s, 0)
  }

  function IndexFrom(text: string, s: string, from: nat): (r: int)
    ensures r == -1 || (from <= r && OccursAt(text, s, r))
    ensures r == -1 ==> forall k :: from <= k ==> !OccursAt(text, s, k)
    ensures forall k :: from <= k < r ==> !OccursAt(text, s, k)
    decreases |text| - from
  {
    if from + |s| > |text| then -1
    else if text[from..from + |s|] == s then from
    else IndexFrom(text, s, from + 1)
  }

  /** `String.Replace(a, b)` on characters: every `a` becomes `b`, everything else stays. */
  function ReplaceChar(s: string, a: char, b: char): (r: string)
    ensures |r| == |s|
    ensures forall i :: 0 <= i < |s| ==> r[i] == (if s[i] == a then b else s[i])
  {
    if s == [] then [] else [if s[0] == a then b else s[0]] + ReplaceChar(s[1..], a, b)
  }

  /** `String.Replace(c, "")`: `s` with every `c` deleted. */
  function RemoveChar(s: string, c: char): (r: string)
    ensures c !in r
    ensures c !in s ==> r == s
  {
    if s == [] then []
    else
      var rest := RemoveChar(s[1..], c);
      assert c !in s ==> c !in s[1..] by { assert s == [s[0]] + s[1..]; }
      (if s[0] == c then [] else [s[0]]) + rest
  }

  /** Deleting `c` keeps every other character as often as it occurs. */
  lemma {:induction false} RemoveCharKeepsOthers(s: string, c: char)
    ensures forall x :: x != c ==> multiset(RemoveChar(s, c))[x] == multiset(s)[x]
  {
    if s != [] {
      RemoveCharKeepsOthers(s[1..], c);
      assert s == [s[0]] + s[1..];
    }
  }

  /** Deleting a character commutes with concatenation, so it keeps the order of what remains. */
  lemma {:induction false} RemoveCharAppend(a: string, b: string, c: char)
    ensures RemoveChar(a + b, c) == RemoveChar(a, c) + RemoveChar(b, c)
    decreases |a|
  {
    if a == [] {
      assert a + b == b;
    } else {
      var ab := a + b;
      var tail := a[1..];
      assert ab[0] == a[0] && ab[1..] == tail + b;
      RemoveCharAppend(tail, b, c);
      var head: string := if a[0] == c then [] else [a[0]];
      calc {
        RemoveChar(ab, c);
        head + RemoveChar(tail + b, c);
        head + (RemoveChar(tail, c) + RemoveChar(b, c));
        (head + RemoveChar(tail, c)) + RemoveChar(b, c);
        RemoveChar(a, c) + RemoveChar(b, c);
      }
    }
  }

  /** Lower-casing of a single character; only the ASCII letters change. */
  function ToLowerAscii(ch: char): (r: char)
    ensures 'A' <= ch <= 'Z' ==> 'a' <= r <= 'z' && r as int - 'a' as int == ch as int - 'A' as int
    ensures !('A' <= ch <= 'Z') ==> r == ch
    ensures !('A' <= r <= 'Z')
  {
    if 'A' <= ch <= 'Z' then (ch as int + 32) as char else ch
  }
}
