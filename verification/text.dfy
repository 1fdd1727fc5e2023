/** The string operations of Go's `strings` package that the core relies on.
    Case mapping is ASCII-only: Go's `strings.ToLower` and `strings.EqualFold`
    use full Unicode case folding, which this model does not reproduce. */
module Text {

  function LowerChar(c: char): char
  {
    if 'A' <= c <= 'Z' then (c as int - 'A' as int + 'a' as int) as char else c
  }

  /** `strings.ToLower`, restricted to ASCII letters. */
  function Lower(s: string): (r: string)
    ensures |r| == |s|
    ensures forall i :: 0 <= i < |s| ==> r[i] == LowerChar(s[i])
  {
    seq(|s|, i requires 0 <= i < |s| => LowerChar(s[i]))
  }

  /** `strings.EqualFold`, restricted to ASCII letters. */
  predicate EqualFold(a: string, b: string)
  {
    Lower(a) == Lower(b)
  }

  /** `strings.HasPrefix`. */
  predicate HasPrefix(s: string, prefix: string)
  {
    prefix <= s
  }

  /** `strings.HasSuffix`. */
  predicate HasSuffix(s: string, suffix: string)
  {
    |suffix| <= |s| && s[|s| - |suffix|..] == suffix
  }

  /** `sub` occurs in `s` starting at position `i`. */
  predicate OccursAt(s: string, sub: string, i: nat)
  {
    i + |sub| <= |s| && s[i..i + |sub|] == sub
  }

  /** `strings.Contains`. */
  predicate Contains(s: string, sub: string)
  {
    exists i: nat :: i <= |s| && OccursAt(s, sub, i)
  }

  /** An occurrence of a word with no upper-case letter survives lower-casing. */
  lemma LowerKeepsContains(s: string, sub: string)
    requires forall k :: 0 <= k < |sub| ==> LowerChar(sub[k]) == sub[k]
    ensures Contains(s, sub) ==> Contains(Lower(s), sub)
  {
    if Contains(s, sub) {
      var i: nat :| i <= |s| && OccursAt(s, sub, i);
      assert Lower(s)[i..i + |sub|] == sub by {
        forall k | 0 <= k < |sub| ensures Lower(s)[i + k] == sub[k] {
          assert s[i + k] == s[i..i + |sub|][k];
        }
      }
      assert OccursAt(Lower(s), sub, i);
    }
  }

  /** `w` occurs in `s` at position `i`, ignoring case. */
  predicate FoldsAt(s: string, w: string, i: nat)
  {
    i + |w| <= |s| && EqualFold(s[i..i + |w|], w)
  }

  /** `w` occurs somewhere in `s`, ignoring case. */
  predicate ContainsFold(s: string, w: string)
  {
    exists i: nat :: i <= |s| && FoldsAt(s, w, i)
  }

  /** Lower-casing the text and searching for a lower-case word is searching
      for the word in any case. */
  lemma LowerContainsIffFold(s: string, w: string)
    requires Lower(w) == w
    ensures Contains(Lower(s), w) <==> ContainsFold(s, w)
  {
    forall i: nat | i + |w| <= |s|
      ensures OccursAt(Lower(s), w, i) <==> FoldsAt(s, w, i)
    {
      assert Lower(s)[i..i + |w|] == Lower(s[i..i + |w|]);
    }
    if ContainsFold(s, w) {
      var i: nat :| i <= |s| && FoldsAt(s, w, i);
      assert OccursAt(Lower(s), w, i);
    }
    if Contains(Lower(s), w) {
      var i: nat :| i <= |Lower(s)| && OccursAt(Lower(s), w, i);
      assert FoldsAt(s, w, i);
    }
  }

  /** Position of the first occurrence of `c`. */
  function IndexOf(s: string, c: char): (i: nat)
    requires c in s
    ensures i < |s| && s[i] == c
    ensures c !in s[..i]
  {
    if s[0] == c then 0
    else
      var k := IndexOf(s[1..], c);
      assert s[..k + 1] == [s[0]] + s[1..][..k];
      k + 1
  }

  /** Concatenates `parts` with `sep` between neighbours (`strings.Join`). */
  function Join(parts: seq<string>, sep: char): string
    requires |parts| >= 1
  {
    if |parts| == 1 then parts[0] else parts[0] + [sep] + Join(parts[1..], sep)
  }

  /** `strings.Split` on a one-character separator: the pieces between
      separators, including empty ones, so that there is always at least one
      piece and joining them back gives the input. */
  function Split(s: string, sep: char): (parts: seq<string>)
    ensures |parts| >= 1
    ensures forall i :: 0 <= i < |parts| ==> sep !in parts[i]
    ensures Join(parts, sep) == s
    decreases |s|
  {
    if sep !in s then [s]
    else
      var i := IndexOf(s, sep);
      var rest := Split(s[i + 1..], sep);
      var parts := [s[..i]] + rest;
      assert parts[1..] == rest;
      assert s == s[..i] + [sep] + s[i + 1..];
      parts
  }

  /** Splitting undoes joining, when no piece contains the separator. */
  lemma {:induction false} SplitJoin(parts: seq<string>, sep: char)
    requires |parts| >= 1
    requires forall i :: 0 <= i < |parts| ==> sep !in parts[i]
    ensures Split(Join(parts, sep), sep) == parts
    decreases |parts|
  {
    if |parts| == 1 {
      assert sep !in parts[0];
    } else {
      var head := parts[0];
      var tail := Join(parts[1..], sep);
      var s := head + [sep] + tail;
      assert s[|head|] == sep;
      var i := IndexOf(s, sep);
      assert i == |head|;
      assert s[..i] == head;
      assert s[i + 1..] == tail;
      SplitJoin(parts[1..], sep);
      assert Split(s, sep) == [head] + parts[1..];
    }
  }

  /** Go's `<` on strings: lexicographic order, a proper prefix being smaller.
      Go compares UTF-8 bytes; on code points that order is the same. */
  predicate Less(a: string, b: string)
  {
    if |b| == 0 then false
    else if |a| == 0 then true
    else if a[0] != b[0] then a[0] < b[0]
    else Less(a[1..], b[1..])
  }

  lemma {:induction false} LessIrreflexive(a: string)
    ensures !Less(a, a)
  {
    if |a| > 0 {
      LessIrreflexive(a[1..]);
    }
  }

  lemma {:induction false} LessAsymmetric(a: string, b: string)
    ensures !(Less(a, b) && Less(b, a))
  {
    if |a| > 0 && |b| > 0 && a[0] == b[0] {
      LessAsymmetric(a[1..], b[1..]);
    }
  }

  /** Two different strings are always ordered one way or the other. */
  lemma {:induction false} LessTotal(a: string, b: string)
    ensures a == b || Less(a, b) || Less(b, a)
  {
    if |a| > 0 && |b| > 0 && a[0] == b[0] {
      LessTotal(a[1..], b[1..]);
      if a[1..] == b[1..] {
        assert a == [a[0]] + a[1..] && b == [b[0]] + b[1..];
      }
    }
  }
}
