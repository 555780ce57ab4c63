/** The JavaScript string operations the user grid relies on, on strings as
    sequences of characters: `split` and `join` on a one-character separator,
    `includes`, and `toLowerCase` restricted to ASCII letters. */
module Text {

  /** `s.split(sep)`: the maximal runs of characters between separators, empty
      runs included, so that there is always at least one piece and a string
      without the separator is its own only piece. */
  function Split(s: string, sep: char): (pieces: seq<string>)
    ensures |pieces| >= 1
    ensures |pieces| == 1 <==> sep !in s
    ensures forall i :: 0 <= i < |pieces| ==> sep !in pieces[i]
    ensures sep !in s ==> pieces == [s]
  {
    if s == [] then [[]]
    else
      var rest := Split(s[1..], sep);
      assert s == [s[0]] + s[1..];
      if s[0] == sep then [[]] + rest
      else [[s[0]] + rest[0]] + rest[1..]
  }

  /** `parts.join(sep)`; joining no parts gives the empty string. Splitting
      the joined string again gives back the parts whenever there is at least
      one and none of them holds the separator. */
  function Join(parts: seq<string>, sep: char): (r: string)
    ensures parts != [] && (forall i :: 0 <= i < |parts| ==> sep !in parts[i]) ==>
              Split(r, sep) == parts
  {
    if parts == [] then []
    else if |parts| == 1 then parts[0]
    else
      var rest := Join(parts[1..], sep);
      var r := parts[0] + [sep] + rest;
      var k := |parts[0]|;
      assert r[..k] == parts[0] && r[k] == sep && r[k + 1..] == rest;
      if forall i :: 0 <= i < |parts| ==> sep !in parts[i] then
        SplitAtFirst(r, sep, k);
        assert parts == [parts[0]] + parts[1..];
        r
      else
        r
  }

  /** Splitting and joining again on the same separator gives back the string. */
  lemma {:induction false} JoinSplit(s: string, sep: char)
    ensures Join(Split(s, sep), sep) == s
  {
    if s != [] {
      var rest := Split(s[1..], sep);
      JoinSplit(s[1..], sep);
      if s[0] == sep {
        assert Split(s, sep) == [[]] + rest;
        assert ([[]] + rest)[1..] == rest;
      } else {
        var pieces := [[s[0]] + rest[0]] + rest[1..];
        assert Split(s, sep) == pieces;
        if |rest| == 1 {
          assert Join(rest, sep) == rest[0];
        } else {
          assert pieces[1..] == rest[1..];
          assert Join(rest, sep) == rest[0] + [sep] + Join(rest[1..], sep);
        }
        assert s == [s[0]] + s[1..];
      }
    }
  }

  /** The first piece is empty exactly when the string is empty or starts with
      the separator. */
  lemma {:induction false} SplitFirstEmpty(s: string, sep: char)
    ensures Split(s, sep)[0] == [] <==> s == [] || s[0] == sep
  {
  }

  /** The string and the separator are the first piece, then the separator,
      then the remaining pieces joined, whenever the separator occurs. */
  lemma SplitHead(s: string, sep: char)
    requires sep in s
    ensures s == Split(s, sep)[0] + [sep] + Join(Split(s, sep)[1..], sep)
  {
    JoinSplit(s, sep);
  }

  /** The first piece runs up to the first separator, and the remaining pieces
      are those of the rest of the string after it. */
  lemma {:induction false} SplitAtFirst(s: string, sep: char, k: nat)
    requires k < |s| && s[k] == sep && sep !in s[..k]
    ensures Split(s, sep) == [s[..k]] + Split(s[k + 1..], sep)
  {
    if k > 0 {
      assert s[0] == s[..k][0];
      assert s[1..][..k - 1] == s[1..k];
      assert s[1..k] == s[..k][1..];
      SplitAtFirst(s[1..], sep, k - 1);
      assert s[1..][k..] == s[k + 1..];
      assert [s[0]] + s[1..k] == s[..k];
    }
  }

  /** `s.startsWith(prefix)`. */
  predicate StartsWith(s: string, prefix: string)
  {
    |prefix| <= |s| && s[..|prefix|] == prefix
  }

  /** `sub` occurs in `s` starting at index `i`. */
  ghost predicate OccursAt(s: string, sub: string, i: int)
  {
    0 <= i && i + |sub| <= |s| && s[i..i + |sub|] == sub
  }

  /** `sub` occurs somewhere in `s`. */
  ghost predicate Occurs(s: string, sub: string)
  {
    exists i :: OccursAt(s, sub, i)
  }

  /** `sub` occurs in `s` exactly when it is a prefix of `s` or occurs in the
      tail of `s`. */
  lemma OccursStep(s: string, sub: string)
    ensures Occurs(s, sub) <==> StartsWith(s, sub) || (s != [] && Occurs(s[1..], sub))
  {
    if StartsWith(s, sub) {
      assert OccursAt(s, sub, 0);
    }
    if s != [] {
      if Occurs(s[1..], sub) {
        var i :| OccursAt(s[1..], sub, i);
        assert s[1..][i..i + |sub|] == s[i + 1..i + 1 + |sub|];
        assert OccursAt(s, sub, i + 1);
      }
      if Occurs(s, sub) {
        var i :| OccursAt(s, sub, i);
        if i > 0 {
          assert s[1..][i - 1..i - 1 + |sub|] == s[i..i + |sub|];
          assert OccursAt(s[1..], sub, i - 1);
        }
      }
    } else if Occurs(s, sub) {
      var i :| OccursAt(s, sub, i);
      assert sub == [];
    }
  }

  /** `s.includes(sub)`, tried at every start position from left to right: it
      holds exactly when `sub` occurs somewhere in `s`. */
  function Contains(s: string, sub: string): (r: bool)
    ensures r <==> Occurs(s, sub)
  {
    OccursStep(s, sub);
    StartsWith(s, sub) || (s != [] && Contains(s[1..], sub))
  }

  /** A string lacking one of the characters of `sub` does not contain it. */
  lemma MissingCharNotContained(s: string, sub: string, c: char)
    requires c in sub && c !in s
    ensures !Contains(s, sub)
  {
  }

  /** The empty search string is found in every string. */
  lemma ContainsEmpty(s: string)
    ensures Contains(s, [])
  {
    assert StartsWith(s, []);
  }

  /** ASCII `toLowerCase` on one character. */
  function LowerChar(c: char): char
  {
    if 'A' <= c <= 'Z' then (c as int + 32) as char else c
  }

  predicate IsLower(s: string)
  {
    forall i :: 0 <= i < |s| ==> !('A' <= s[i] <= 'Z')
  }

  /** `s.toLowerCase()`: every upper-case letter replaced by its lower-case one. */
  function Lower(s: string): (r: string)
    ensures |r| == |s|
    ensures forall i :: 0 <= i < |s| ==> r[i] == LowerChar(s[i])
    ensures IsLower(r)
  {
    if s == [] then [] else [LowerChar(s[0])] + Lower(s[1..])
  }

  /** Lower-casing a lower-case string changes nothing. */
  lemma LowerOfLower(s: string)
    requires IsLower(s)
    ensures Lower(s) == s
  {
  }
}
