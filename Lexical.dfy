/** Lexicographic comparison of strings as Java's String.compareTo defines it,
    sorted sequences, the sorted insertion that adding one element to a sorted
    list and sorting it again amounts to, a generic linear search, and the
    ", "-joining used by the roster renderings. */
module Lexical {
  import opened Messages

  /** Java's String.compareTo: the difference of the first differing
      characters, or else the difference of the lengths. */
  function Compare(a: string, b: string): (r: int)
    ensures a == b ==> r == 0
    decreases |a|
  {
    if |a| == 0 || |b| == 0 then |a| - |b|
    else if a[0] != b[0] then a[0] as int - b[0] as int
    else Compare(a[1..], b[1..])
  }

  /** Swapping the arguments negates the result exactly. */
  lemma {:induction false} CompareAntisymmetric(a: string, b: string)
    ensures Compare(a, b) == -Compare(b, a)
    decreases |a|
  {
    if |a| > 0 && |b| > 0 && a[0] == b[0] {
      CompareAntisymmetric(a[1..], b[1..]);
    }
  }

  /** Compare is zero exactly on equal strings. */
  lemma {:induction false} CompareZeroIff(a: string, b: string)
    ensures Compare(a, b) == 0 <==> a == b
    decreases |a|
  {
    if |a| > 0 && |b| > 0 && a[0] == b[0] {
      CompareZeroIff(a[1..], b[1..]);
      if a[1..] == b[1..] {
        assert a == [a[0]] + a[1..] && b == [b[0]] + b[1..];
      }
    }
  }

  /** The order Compare induces is transitive, and strictly so when one step is strict. */
  lemma {:induction false} CompareTransitive(a: string, b: string, c: string)
    requires Compare(a, b) <= 0 && Compare(b, c) <= 0
    ensures Compare(a, c) <= 0
    ensures Compare(a, b) < 0 || Compare(b, c) < 0 ==> Compare(a, c) < 0
    decreases |a|
  {
    if |a| > 0 && |b| > 0 && |c| > 0 && a[0] == b[0] && b[0] == c[0] {
      CompareTransitive(a[1..], b[1..], c[1..]);
    }
  }

  /** s is in ascending order of key (ties allowed). */
  ghost predicate SortedBy<T>(s: seq<T>, key: T -> string) {
    forall i, j :: 0 <= i < j < |s| ==> Compare(key(s[i]), key(s[j])) <= 0
  }

  /** s is in strictly ascending order of key. */
  ghost predicate StrictlySortedBy<T>(s: seq<T>, key: T -> string) {
    forall i, j :: 0 <= i < j < |s| ==> Compare(key(s[i]), key(s[j])) < 0
  }

  /** An element whose key is not below any key of a sorted list may be
      appended to it. */
  lemma SortedAppend<T>(s: seq<T>, x: T, key: T -> string)
    requires SortedBy(s, key)
    requires forall i :: 0 <= i < |s| ==> Compare(key(s[i]), key(x)) <= 0
    ensures SortedBy(s + [x], key)
  {
    var t := s + [x];
    forall i, j | 0 <= i < j < |t| ensures Compare(key(t[i]), key(t[j])) <= 0 {
      assert t[i] == s[i];
    }
  }

  /** An element whose key is above every key of a strictly sorted list may
      be appended to it. */
  lemma StrictlySortedAppend<T>(s: seq<T>, x: T, key: T -> string)
    requires StrictlySortedBy(s, key)
    requires forall i :: 0 <= i < |s| ==> Compare(key(s[i]), key(x)) < 0
    ensures StrictlySortedBy(s + [x], key)
  {
    var t := s + [x];
    forall i, j | 0 <= i < j < |t| ensures Compare(key(t[i]), key(t[j])) < 0 {
      assert t[i] == s[i];
    }
  }

  /** A concatenation begins with its left part and ends with its right. */
  lemma ConcatParts<T>(a: seq<T>, b: seq<T>)
    ensures (a + b)[..|a|] == a && (a + b)[|a|..] == b
    ensures |b| > 0 ==> (a + b)[|a|] == b[0] && (a + b)[|a + b| - 1] == b[|b| - 1]
  {
  }

  /** No element occurs twice. */
  ghost predicate NoRepeats<T>(s: seq<T>) {
    forall i, j :: 0 <= i < j < |s| ==> s[i] != s[j]
  }

  /** What Java's stable Collections.sort leaves after x is appended to a list
      that was already sorted by key: x goes after every element whose key is
      not greater than its own and before the first one whose key is greater. */
  function InsertSorted<T>(s: seq<T>, x: T, key: T -> string): (r: seq<T>)
    ensures |r| == |s| + 1
    ensures multiset(r) == multiset(s) + multiset{x}
    decreases |s|
  {
    if s == [] || Compare(key(s[0]), key(x)) > 0 then [x] + s
    else
      assert s == [s[0]] + s[1..];
      [s[0]] + InsertSorted(s[1..], x, key)
  }

  lemma InsertIntoEmpty<T>(x: T, key: T -> string)
    ensures InsertSorted([], x, key) == [x]
  {
  }

  /** x goes last when no key of s is greater than its own: the stable
      sort keeps an appended element behind its equals. */
  lemma {:induction false} InsertSortedLast<T>(s: seq<T>, x: T, key: T -> string)
    requires forall i :: 0 <= i < |s| ==> Compare(key(s[i]), key(x)) <= 0
    ensures InsertSorted(s, x, key) == s + [x]
    decreases |s|
  {
    if s != [] {
      InsertSortedLast(s[1..], x, key);
      assert s == [s[0]] + s[1..];
    }
  }

  /** Inserting an element not yet present keeps a sequence free of repeats. */
  lemma {:induction false} InsertSortedNoRepeats<T>(s: seq<T>, x: T, key: T -> string)
    requires NoRepeats(s) && x !in s
    ensures NoRepeats(InsertSorted(s, x, key))
    decreases |s|
  {
    if s == [] || Compare(key(s[0]), key(x)) > 0 {
      ConsNoRepeats(x, s);
    } else {
      var tail := s[1..];
      assert NoRepeats(tail) by {
        forall i, j | 0 <= i < j < |tail| ensures tail[i] != tail[j] {
          assert tail[i] == s[i + 1] && tail[j] == s[j + 1];
        }
      }
      InsertSortedNoRepeats(tail, x, key);
      var t := InsertSorted(tail, x, key);
      forall j | 0 <= j < |t| ensures t[j] != s[0] {
        assert t[j] in multiset(t);
        if t[j] != x {
          assert t[j] in tail;
          var k :| 0 <= k < |tail| && tail[k] == t[j];
          assert s[k + 1] == t[j];
        }
      }
      ConsNoRepeats(s[0], t);
    }
  }

  lemma ConsNoRepeats<T>(a: T, t: seq<T>)
    requires NoRepeats(t) && a !in t
    ensures NoRepeats([a] + t)
  {
    var r := [a] + t;
    forall i, j | 0 <= i < j < |r| ensures r[i] != r[j] {
      assert r[j] == t[j - 1];
      if i > 0 {
        assert r[i] == t[i - 1];
      }
    }
  }

  /** Where InsertSorted puts x: in front of the first element whose key is
      greater than x's, or at the end when there is none. */
  function InsertionPoint<T>(s: seq<T>, x: T, key: T -> string): (k: nat)
    ensures k <= |s|
    ensures forall i :: 0 <= i < k ==> Compare(key(s[i]), key(x)) <= 0
    ensures k < |s| ==> Compare(key(s[k]), key(x)) > 0
    decreases |s|
  {
    if s == [] || Compare(key(s[0]), key(x)) > 0 then 0
    else 1 + InsertionPoint(s[1..], x, key)
  }

  /** InsertSorted keeps every other element in its place and order and puts
      x at its insertion point. */
  lemma {:induction false} InsertSortedAt<T>(s: seq<T>, x: T, key: T -> string)
    ensures var k := InsertionPoint(s, x, key);
      InsertSorted(s, x, key) == s[..k] + [x] + s[k..]
    decreases |s|
  {
    if s != [] && Compare(key(s[0]), key(x)) <= 0 {
      InsertSortedAt(s[1..], x, key);
      ConsSplit(s, InsertionPoint(s[1..], x, key), x);
    }
  }

  lemma ConsSplit<T>(s: seq<T>, k: nat, x: T)
    requires 0 < |s| && k < |s|
    ensures [s[0]] + (s[1..][..k] + [x] + s[1..][k..]) == s[..k + 1] + [x] + s[k + 1..]
  {
    assert [s[0]] + s[1..][..k] == s[..k + 1];
    assert s[1..][k..] == s[k + 1..];
  }

  /** Every element of the result is x or an element of s. */
  lemma InsertSortedMembers<T>(s: seq<T>, x: T, key: T -> string)
    ensures forall i :: 0 <= i < |s| + 1 ==> InsertSorted(s, x, key)[i] == x || InsertSorted(s, x, key)[i] in s
  {
    var r := InsertSorted(s, x, key);
    forall i | 0 <= i < |r| ensures r[i] == x || r[i] in s {
      assert r[i] in multiset(r);
    }
  }

  /** Inserting into a sorted sequence leaves it sorted. */
  lemma {:induction false} InsertSortedKeepsSorted<T>(s: seq<T>, x: T, key: T -> string)
    requires SortedBy(s, key)
    ensures SortedBy(InsertSorted(s, x, key), key)
    decreases |s|
  {
    var r := InsertSorted(s, x, key);
    if s == [] {
    } else if Compare(key(s[0]), key(x)) > 0 {
      CompareAntisymmetric(key(s[0]), key(x));
      forall j | 0 < j < |r| ensures Compare(key(r[0]), key(r[j])) <= 0 {
        CompareTransitive(key(x), key(s[0]), key(s[j - 1]));
      }
    } else {
      var t := InsertSorted(s[1..], x, key);
      InsertSortedKeepsSorted(s[1..], x, key);
      assert r == [s[0]] + t;
      forall j | 0 <= j < |t| ensures Compare(key(s[0]), key(t[j])) <= 0 {
        assert t[j] in multiset(t);
        if t[j] != x {
          assert t[j] in s[1..];
          var i :| 0 <= i < |s[1..]| && s[1..][i] == t[j];
          assert s[i + 1] == t[j];
        }
      }
    }
  }

  /** Inserting a key that is not yet present into a strictly sorted sequence
      leaves it strictly sorted. */
  lemma {:induction false} InsertSortedKeepsStrict<T>(s: seq<T>, x: T, key: T -> string)
    requires StrictlySortedBy(s, key)
    requires forall i :: 0 <= i < |s| ==> key(s[i]) != key(x)
    ensures StrictlySortedBy(InsertSorted(s, x, key), key)
    decreases |s|
  {
    var r := InsertSorted(s, x, key);
    if s == [] {
    } else if Compare(key(s[0]), key(x)) > 0 {
      CompareAntisymmetric(key(s[0]), key(x));
      forall j | 0 < j < |r| ensures Compare(key(r[0]), key(r[j])) < 0 {
        CompareTransitive(key(x), key(s[0]), key(s[j - 1]));
      }
    } else {
      var t := InsertSorted(s[1..], x, key);
      InsertSortedKeepsStrict(s[1..], x, key);
      assert r == [s[0]] + t;
      CompareZeroIff(key(s[0]), key(x));
      forall j | 0 <= j < |t| ensures Compare(key(s[0]), key(t[j])) < 0 {
        assert t[j] in multiset(t);
        if t[j] != x {
          assert t[j] in s[1..];
          var i :| 0 <= i < |s[1..]| && s[1..][i] == t[j];
          assert s[i + 1] == t[j];
        }
      }
    }
  }

  /** The index of the first element of s that p accepts: the linear searches
      of the roster return as soon as an element matches. */
  function FirstIndex<T>(s: seq<T>, p: T -> bool): (r: Option<nat>)
    ensures r.Some? ==> r.value < |s| && p(s[r.value])
    ensures r.Some? ==> forall j :: 0 <= j < r.value ==> !p(s[j])
    ensures r.None? ==> forall j :: 0 <= j < |s| ==> !p(s[j])
    decreases |s|
  {
    if s == [] then None
    else if p(s[0]) then Some(0)
    else match FirstIndex(s[1..], p)
      case None => None
      case Some(k) => Some(k + 1)
  }

  /** The names joined with ", " between neighbours. */
  function Join(names: seq<string>): (r: string)
    requires |names| > 0
  {
    if |names| == 1 then names[0]
    else Join(names[..|names| - 1]) + ", " + names[|names| - 1]
  }

  /** Every name followed by ", ": the string a loop builds before it drops
      the trailing separator. */
  function Suffixed(names: seq<string>): (r: string) {
    if names == [] then ""
    else Suffixed(names[..|names| - 1]) + names[|names| - 1] + ", "
  }

  /** Dropping the trailing ", " from the suffixed names gives them joined. */
  lemma {:induction false} SuffixedIsJoinPlusSeparator(names: seq<string>)
    requires |names| > 0
    ensures Suffixed(names) == Join(names) + ", "
    ensures |Suffixed(names)| >= 2
    ensures Suffixed(names)[..|Suffixed(names)| - 2] == Join(names)
    decreases |names|
  {
    var last := names[|names| - 1];
    if |names| == 1 {
      assert names[..0] == [];
    } else {
      SuffixedIsJoinPlusSeparator(names[..|names| - 1]);
    }
    var j := Join(names);
    assert Suffixed(names) == j + ", ";
    assert (j + ", ")[..|j|] == j;
  }

  /** A single name is rendered as it is; with two or more names, the first
      is followed by ", " and the last closes the string. */
  lemma {:induction false} JoinShape(names: seq<string>)
    requires |names| > 0
    ensures |names| == 1 ==> Join(names) == names[0]
    ensures |Join(names)| >= |names[0]| && Join(names)[..|names[0]|] == names[0]
    ensures |names| > 1 ==>
      |Join(names)| >= |names[0]| + 2 && Join(names)[|names[0]|..|names[0]| + 2] == ", "
    decreases |names|
  {
    if |names| > 1 {
      var init := names[..|names| - 1];
      JoinShape(init);
      assert init[0] == names[0];
      var j := Join(init);
      var n := |names[0]|;
      assert Join(names) == j + (", " + names[|names| - 1]);
      assert Join(names)[..n] == j[..n];
      if |init| == 1 {
        assert Join(names)[n..n + 2] == ", ";
      } else {
        assert Join(names)[n..n + 2] == j[n..n + 2];
      }
    }
  }
}
