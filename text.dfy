/** The string operations of Python that the modelled code relies on:
    `in` on strings, `str.split`, `str.lower` and `str.replace`. */
module Text {

  /** `sub` occurs in `s` starting at index `i`. */
  predicate OccursAt(s: string, sub: string, i: nat)
  {
    i + |sub| <= |s| && s[i..i + |sub|] == sub
  }

  /** Python's `sub in s`: `sub` occurs in `s` as a contiguous run. */
  function Contains(s: string, sub: string): (r: bool)
    ensures r <==> exists i: nat :: OccursAt(s, sub, i)
    decreases |s|
  {
    if |sub| > |s| then false
    else if s[..|sub|] == sub then assert OccursAt(s, sub, 0); true
    else
      var r := Contains(s[1..], sub);
      assert !OccursAt(s, sub, 0);
      assert forall i: nat :: OccursAt(s, sub, i + 1) <==> OccursAt(s[1..], sub, i) by {
        forall i: nat ensures OccursAt(s, sub, i + 1) <==> OccursAt(s[1..], sub, i) {
          if i + 1 + |sub| <= |s| {
            var here, there := s[i + 1..i + 1 + |sub|], s[1..][i..i + |sub|];
            assert forall k :: 0 <= k < |sub| ==> here[k] == there[k];
          }
        }
      }
      assert forall i: nat :: OccursAt(s, sub, i) ==> i == 0 || OccursAt(s[1..], sub, i - 1);
      r
  }

  /** Index of the first occurrence of `c` in `s`. */
  function IndexOf(s: string, c: char): (i: nat)
    requires c in s
    ensures i < |s| && s[i] == c && c !in s[..i]
  {
    if s[0] == c then 0 else 1 + IndexOf(s[1..], c)
  }

  /** Python's `s.split(c)` for a one-character separator. */
  function Split(s: string, c: char): (pieces: seq<string>)
    ensures |pieces| >= 1
    ensures forall j :: 0 <= j < |pieces| ==> c !in pieces[j]
    decreases |s|
  {
    if c !in s then [s]
    else
      var i := IndexOf(s, c);
      [s[..i]] + Split(s[i + 1..], c)
  }

  /** Python's `c.join(pieces)`. */
  function Join(pieces: seq<string>, c: char): string
  {
    if |pieces| == 0 then ""
    else if |pieces| == 1 then pieces[0]
    else pieces[0] + [c] + Join(pieces[1..], c)
  }

  /** Splitting and joining again gives back the original string. */
  lemma {:induction false} JoinSplit(s: string, c: char)
    ensures Join(Split(s, c), c) == s
    decreases |s|
  {
    if c in s {
      var i := IndexOf(s, c);
      var rest := Split(s[i + 1..], c);
      var pieces := [s[..i]] + rest;
      assert Split(s, c) == pieces;
      assert pieces[1..] == rest;
      JoinSplit(s[i + 1..], c);
      assert Join(pieces, c) == s[..i] + [c] + s[i + 1..];
      assert s == s[..i] + [c] + s[i + 1..];
    }
  }

  /** Every character of every piece of `Split(s, c)` is a character of `s`. */
  lemma {:induction false} SplitChars(s: string, c: char, j: nat, k: nat)
    requires j < |Split(s, c)| && k < |Split(s, c)[j]|
    ensures Split(s, c)[j][k] in s
    decreases |s|
  {
    if c in s {
      var i := IndexOf(s, c);
      if j > 0 {
        SplitChars(s[i + 1..], c, j - 1, k);
        assert Split(s, c)[j] == Split(s[i + 1..], c)[j - 1];
        assert forall x :: x in s[i + 1..] ==> x in s;
      } else {
        assert s[..i][k] == s[k];
      }
    }
  }

  /** Python's `s.split(c, 1)` when `c` occurs: the part before the first `c`
      and everything after it. */
  function SplitOnce(s: string, c: char): (r: (string, string))
    requires c in s
    ensures s == r.0 + [c] + r.1 && c !in r.0
  {
    var i := IndexOf(s, c);
    assert s == s[..i] + [c] + s[i + 1..];
    (s[..i], s[i + 1..])
  }

  /** Where `c` first occurs is fixed by the text before it. */
  lemma SplitOnceAt(a: string, c: char, b: string)
    requires c !in a
    ensures c in a + [c] + b
    ensures SplitOnce(a + [c] + b, c) == (a, b)
  {
    var s := a + [c] + b;
    var i := IndexOf(s, c);
    assert s[|a|] == c;
    assert s[..|a|] == a && s[|a| + 1..] == b;
  }

  /** `Split` peels off the text before the first separator. */
  lemma SplitAt(a: string, c: char, b: string)
    requires c !in a
    ensures Split(a + [c] + b, c) == [a] + Split(b, c)
  {
    SplitOnceAt(a, c, b);
  }

  predicate IsUpper(c: char) { 'A' <= c <= 'Z' }

  /** `str.lower` on one character (ASCII letters only). */
  function LowerChar(c: char): (r: char)
    ensures !IsUpper(r)
    ensures IsUpper(c) ==> r as int == c as int + 32
    ensures !IsUpper(c) ==> r == c
  {
    if IsUpper(c) then (c as int + 32) as char else c
  }

  /** `str.lower` (ASCII letters only). */
  function Lower(s: string): (r: string)
    ensures |r| == |s|
    ensures forall i :: 0 <= i < |s| ==> r[i] == LowerChar(s[i])
  {
    seq(|s|, i requires 0 <= i < |s| => LowerChar(s[i]))
  }

  predicate NoUpper(s: string) { forall i :: 0 <= i < |s| ==> !IsUpper(s[i]) }

  /** Lower-casing leaves no upper-case letter, and doing it twice changes nothing more. */
  lemma LowerIsLower(s: string)
    ensures NoUpper(Lower(s))
    ensures Lower(Lower(s)) == Lower(s)
  {
  }

  /** A character that is neither an upper- nor a lower-case ASCII letter. */
  predicate CaseFree(c: char) { !IsUpper(c) && !('a' <= c <= 'z') }

  lemma LowerConcat(a: string, b: string)
    ensures Lower(a + b) == Lower(a) + Lower(b)
  {
    assert forall i :: 0 <= i < |a + b| ==> Lower(a + b)[i] == (Lower(a) + Lower(b))[i];
  }

  /** Lower-casing neither creates nor removes a case-free character. */
  lemma LowerHas(s: string, c: char)
    requires CaseFree(c)
    ensures c in Lower(s) <==> c in s
  {
    if c in s {
      var i :| 0 <= i < |s| && s[i] == c;
      assert Lower(s)[i] == c;
    }
    if c in Lower(s) {
      var i :| 0 <= i < |s| && Lower(s)[i] == c;
      assert s[i] == c;
    }
  }

  /** Splitting at a case-free character commutes with lower-casing. */
  lemma LowerSplitOnce(s: string, c: char)
    requires CaseFree(c) && c in s
    ensures c in Lower(s)
    ensures SplitOnce(Lower(s), c) == (Lower(SplitOnce(s, c).0), Lower(SplitOnce(s, c).1))
  {
    var (a, b) := SplitOnce(s, c);
    LowerConcat(a + [c], b);
    LowerConcat(a, [c]);
    assert Lower([c]) == [c];
    LowerHas(a, c);
    SplitOnceAt(Lower(a), c, Lower(b));
  }

  /** Removing case-free characters commutes with lower-casing. */
  lemma {:induction false} LowerRemoveChars(s: string, drop: set<char>)
    requires forall c :: c in drop ==> CaseFree(c)
    ensures RemoveChars(Lower(s), drop) == Lower(RemoveChars(s, drop))
    decreases |s|
  {
    if s != [] {
      LowerRemoveChars(s[1..], drop);
      assert Lower(s) == [LowerChar(s[0])] + Lower(s[1..]);
      assert LowerChar(s[0]) in drop <==> s[0] in drop;
      if s[0] !in drop {
        LowerConcat([s[0]], RemoveChars(s[1..], drop));
      }
    }
  }

  /** Python's `s.replace(x, y)` for single characters. */
  function ReplaceChar(s: string, x: char, y: char): (r: string)
    ensures |r| == |s|
    ensures forall i :: 0 <= i < |s| ==> r[i] == (if s[i] == x then y else s[i])
  {
    seq(|s|, i requires 0 <= i < |s| => if s[i] == x then y else s[i])
  }

  /** `s` with every character in `drop` removed. */
  function RemoveChars(s: string, drop: set<char>): (r: string)
    ensures forall i :: 0 <= i < |r| ==> r[i] !in drop && r[i] in s
    ensures (forall i :: 0 <= i < |s| ==> s[i] !in drop) ==> r == s
    decreases |s|
  {
    if s == [] then []
    else if s[0] in drop then RemoveChars(s[1..], drop)
    else [s[0]] + RemoveChars(s[1..], drop)
  }
}
