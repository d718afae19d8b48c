/**
 * The parts of Go's `strings` package the tools rely on: Index and Contains
 * (substring search), Split (cut's columns and field list) and Join (cut's
 * tab-joined output).
 */
module Text {

  /** Pattern p occurs in s starting at position i. */
  predicate OccursAt(s: string, p: string, i: int) {
    0 <= i && i + |p| <= |s| && s[i..i + |p|] == p
  }

  /** Leftmost occurrence of p in s at or after `from`, or -1. */
  function IndexFrom(s: string, p: string, from: nat): (r: int)
    ensures r == -1 || (from <= r && OccursAt(s, p, r))
    ensures forall j :: from <= j && (r == -1 || j < r) ==> !OccursAt(s, p, j)
    decreases |s| - from
  {
    if from + |p| > |s| then -1
    else if s[from..from + |p|] == p then from
    else IndexFrom(s, p, from + 1)
  }

  /** strings.Index: position of the leftmost occurrence of p in s, or -1 when there is none. */
  function Index(s: string, p: string): (r: int)
    ensures r == -1 <==> forall j :: !OccursAt(s, p, j)
    ensures r != -1 ==> OccursAt(s, p, r) && forall j :: 0 <= j < r ==> !OccursAt(s, p, j)
  {
    IndexFrom(s, p, 0)
  }

  /** strings.Contains: literal substring containment. */
  function Contains(s: string, p: string): (b: bool)
    ensures b <==> exists i :: OccursAt(s, p, i)
  {
    Index(s, p) >= 0
  }

  /** strings.Join: the parts with sep between consecutive ones. */
  function Join(parts: seq<string>, sep: string): (r: string)
    ensures |parts| == 0 ==> r == ""
    ensures |parts| == 1 ==> r == parts[0]
    ensures 0 < |parts| ==> |parts[0]| <= |r| && r[..|parts[0]|] == parts[0]
    ensures 1 < |parts| ==> OccursAt(r, sep, |parts[0]|)
  {
    if |parts| == 0 then ""
    else if |parts| == 1 then parts[0]
    else parts[0] + sep + Join(parts[1..], sep)
  }

  /** The text before the leftmost occurrence of sep never contains sep. */
  lemma PrefixBeforeFirst(s: string, sep: string, i: int)
    requires 0 < |sep|
    requires OccursAt(s, sep, i)
    requires forall j :: 0 <= j < i ==> !OccursAt(s, sep, j)
    ensures !Contains(s[..i], sep)
  {
    forall j | 0 <= j && j + |sep| <= i
      ensures !OccursAt(s[..i], sep, j)
    {
      assert j < i;
      assert !OccursAt(s, sep, j);
      assert s[..i][j..j + |sep|] == s[j..j + |sep|];
    }
  }

  /**
   * No occurrence of sep starts before the leftmost one at i, so the text up
   * to the last character of that occurrence holds no complete sep.
   */
  lemma NothingBeforeFirst(s: string, sep: string, i: int)
    requires 0 < |sep|
    requires OccursAt(s, sep, i)
    requires forall j :: 0 <= j < i ==> !OccursAt(s, sep, j)
    ensures !Contains(s[..i + |sep| - 1], sep)
  {
    var head := s[..i + |sep| - 1];
    forall j
      ensures !OccursAt(head, sep, j)
    {
      if 0 <= j && j + |sep| <= |head| {
        assert j < i;
        assert !OccursAt(s, sep, j);
        assert head[j..j + |sep|] == s[j..j + |sep|];
      }
    }
  }

  /**
   * strings.Split with a non-empty separator: the text between consecutive
   * leftmost, non-overlapping occurrences of sep. There is always at least one
   * part, and no part contains sep. Every cut is at the leftmost occurrence:
   * no occurrence of sep starts inside a part that a separator follows.
   */
  function Split(s: string, sep: string): (parts: seq<string>)
    requires 0 < |sep|
    ensures 0 < |parts|
    ensures forall k :: 0 <= k < |parts| ==> !Contains(parts[k], sep)
    ensures forall k :: 0 <= k < |parts| - 1 ==> !Contains(parts[k] + sep[..|sep| - 1], sep)
    decreases |s|
  {
    var i := Index(s, sep);
    if i < 0 then [s]
    else
      PrefixBeforeFirst(s, sep, i);
      NothingBeforeFirst(s, sep, i);
      assert s[..i] + sep[..|sep| - 1] == s[..i + |sep| - 1] by {
        assert s[i..i + |sep|] == sep;
      }
      [s[..i]] + Split(s[i + |sep|..], sep)
  }

  /** A separator that overlaps itself is cut at its leftmost occurrence: "aaa" split at "aa" is "", "a". */
  lemma OverlappingSeparator()
    ensures Split("aaa", "aa") == ["", "a"]
  {
    assert OccursAt("aaa", "aa", 0) by {
      assert "aaa"[0..2] == "aa";
    }
    assert "aaa"[..0] == "" && "aaa"[2..] == "a";
    SplitWithoutSeparator("a", "aa");
  }

  /** Joining the parts of a split with the same separator gives back the text. */
  lemma {:induction false} JoinSplit(s: string, sep: string)
    requires 0 < |sep|
    ensures Join(Split(s, sep), sep) == s
    decreases |s|
  {
    var i := Index(s, sep);
    if i >= 0 {
      var rest := Split(s[i + |sep|..], sep);
      JoinSplit(s[i + |sep|..], sep);
      assert ([s[..i]] + rest)[1..] == rest;
      assert s == s[..i] + sep + s[i + |sep|..] by {
        assert s[i..i + |sep|] == sep;
      }
    }
  }

  /** In a + [c] + b, where a holds no c, the leftmost c is the one after a. */
  lemma FirstSeparator(a: string, c: char, b: string)
    requires !Contains(a, [c])
    ensures Index(a + [c] + b, [c]) == |a|
  {
    var s := a + [c] + b;
    assert OccursAt(s, [c], |a|) by {
      assert s[|a|..|a| + 1] == [c];
    }
    forall j | 0 <= j < |a|
      ensures !OccursAt(s, [c], j)
    {
      assert !exists k :: OccursAt(a, [c], k);
      assert !OccursAt(a, [c], j);
      assert a[j..j + 1] == [a[j]];
      assert s[j..j + 1] == [s[j]];
    }
  }

  /** Splitting a + [c] + b, where a holds no c, cuts a off first. */
  lemma SplitAtFirst(a: string, c: char, b: string)
    requires !Contains(a, [c])
    ensures Split(a + [c] + b, [c]) == [a] + Split(b, [c])
  {
    var s := a + [c] + b;
    FirstSeparator(a, c, b);
    assert s[..|a|] == a;
    assert s[|a| + 1..] == b;
  }

  /**
   * Splitting on a one-character separator recovers the parts that were
   * joined with it, provided no part contains that character.
   */
  lemma {:induction false} SplitJoin(parts: seq<string>, c: char)
    requires 0 < |parts|
    requires forall k :: 0 <= k < |parts| ==> !Contains(parts[k], [c])
    ensures Split(Join(parts, [c]), [c]) == parts
    decreases |parts|
  {
    if |parts| == 1 {
      assert Join(parts, [c]) == parts[0];
    } else {
      var tail := Join(parts[1..], [c]);
      assert Join(parts, [c]) == parts[0] + [c] + tail;
      SplitAtFirst(parts[0], c, tail);
      SplitJoin(parts[1..], c);
      assert parts == [parts[0]] + parts[1..];
    }
  }

  /** A one-character pattern occurs exactly when the character does. */
  lemma ContainsChar(s: string, c: char)
    ensures Contains(s, [c]) <==> c in s
  {
    if c in s {
      var j :| 0 <= j < |s| && s[j] == c;
      assert s[j..j + 1] == [c];
      assert OccursAt(s, [c], j);
    }
    if Contains(s, [c]) {
      var j :| OccursAt(s, [c], j);
      assert s[j] == s[j..j + 1][0];
    }
  }

  /** A text without the separator splits into itself alone. */
  lemma SplitWithoutSeparator(s: string, sep: string)
    requires 0 < |sep|
    requires !Contains(s, sep)
    ensures Split(s, sep) == [s]
  {
  }
}
