/**
 `LocalSequenceData::getKFBlist`: the `.kfb` files of the `.kfr` file's directory, sorted in
 descending order.

 The directory listing is an input (the paths of its entries, in the order the directory
 iterator yields them). A path's extension follows `std::filesystem::path::extension`: the file
 name is the part after the last separator; `.` and `..` have none; otherwise it runs from the
 last dot of the file name, unless that dot is the name's first character. Strings compare
 lexicographically by character code, as `std::string`'s `operator<` does.
 */
module KfbList {

  predicate IsSeparator(c: char) { c == '/' || c == '\\' }

  /** The last component of a path: everything after the last separator. */
  function FileName(p: string): (n: string)
    ensures |n| <= |p| && n == p[|p| - |n|..]
    ensures forall i :: 0 <= i < |n| ==> !IsSeparator(n[i])
    ensures |n| < |p| ==> IsSeparator(p[|p| - |n| - 1])
    decreases |p|
  {
    if |p| == 0 || IsSeparator(p[|p| - 1]) then ""
    else FileName(p[..|p| - 1]) + [p[|p| - 1]]
  }

  /** The position of the last dot of s, or -1 when there is none. */
  function LastDot(s: string): (i: int)
    ensures -1 <= i < |s|
    ensures i >= 0 ==> s[i] == '.'
    ensures forall j :: i < j < |s| ==> s[j] != '.'
    decreases |s|
  {
    if |s| == 0 then -1
    else if s[|s| - 1] == '.' then |s| - 1
    else LastDot(s[..|s| - 1])
  }

  /** `path::extension`: from the last dot of the file name, which must not be its first character. */
  function Extension(p: string): string {
    var n := FileName(p);
    if n == "." || n == ".." then ""
    else
      var i := LastDot(n);
      if i <= 0 then "" else n[i..]
  }

  predicate IsKfb(p: string) { Extension(p) == ".kfb" }

  /** The last dot of s is at k - 1 when no dot follows it. */
  lemma {:induction false} LastDotAt(s: string, k: nat)
    requires 0 < k <= |s| && s[k - 1] == '.'
    requires forall j :: k <= j < |s| ==> s[j] != '.'
    ensures LastDot(s) == k - 1
    decreases |s| - k
  {
    if k < |s| {
      LastDotAt(s[..|s| - 1], k);
    }
  }

  /**
   A path names a `.kfb` file exactly when its file name ends in `.kfb` and has at least one
   character before that suffix; a hidden name such as `.kfb` alone does not count.
   */
  lemma IsKfbIff(p: string)
    ensures var n := FileName(p);
      IsKfb(p) <==> |n| > 4 && n[|n| - 4..] == ".kfb"
  {
    var n := FileName(p);
    if IsKfb(p) {
      KfbSuffix(n);
    }
    if |n| > 4 && n[|n| - 4..] == ".kfb" {
      SuffixKfb(n);
    }
  }

  /** A file name whose extension is `.kfb` ends in `.kfb` after at least one character. */
  lemma KfbSuffix(n: string)
    requires n != "." && n != ".." && LastDot(n) > 0 && n[LastDot(n)..] == ".kfb"
    ensures |n| > 4 && n[|n| - 4..] == ".kfb"
  {
    var i := LastDot(n);
    assert |n[i..]| == 4;
  }

  /** A file name ending in `.kfb` after at least one character has extension `.kfb`. */
  lemma SuffixKfb(n: string)
    requires |n| > 4 && n[|n| - 4..] == ".kfb"
    ensures n != "." && n != ".." && LastDot(n) == |n| - 4 && n[LastDot(n)..] == ".kfb"
  {
    assert n[|n| - 4] == '.' && n[|n| - 3] == 'k' && n[|n| - 2] == 'f' && n[|n| - 1] == 'b' by {
      assert forall j :: 0 <= j < 4 ==> n[|n| - 4 + j] == ".kfb"[j];
    }
    LastDotAt(n, |n| - 3);
    assert |n| != 1 && |n| != 2;
  }

  /** The file name of `dir/name`, for a name without separators, is that name. */
  lemma {:induction false} FileNameIn(dir: string, name: string)
    requires forall i :: 0 <= i < |name| ==> !IsSeparator(name[i])
    ensures FileName(dir + "/" + name) == name
    decreases |name|
  {
    var p := dir + "/" + name;
    if |name| == 0 {
      assert p[|p| - 1] == '/';
    } else {
      var init := name[..|name| - 1];
      FileNameIn(dir, init);
      assert p[..|p| - 1] == dir + "/" + init;
      assert name == init + [name[|name| - 1]];
    }
  }

  /** The entries the directory yields with extension `.kfb`, in the listing's order. */
  function KfbEntries(entries: seq<string>): (r: seq<string>)
    ensures forall i :: 0 <= i < |r| ==> IsKfb(r[i])
    ensures forall x :: x in r <==> x in entries && IsKfb(x)
    ensures |r| <= |entries|
  {
    if |entries| == 0 then []
    else
      var rest := KfbEntries(entries[1..]);
      var r := if IsKfb(entries[0]) then [entries[0]] + rest else rest;
      assert forall x :: x in r <==> x in entries && IsKfb(x) by {
        forall x ensures x in r <==> x in entries && IsKfb(x) {
          assert x in entries <==> x == entries[0] || x in entries[1..];
        }
      }
      r
  }

  /** Lexicographic order on strings: a is a prefix of b, or the first differing character of a is smaller. */
  predicate LexLeq(a: string, b: string)
    decreases |a|
  {
    |a| == 0 || (|b| > 0 && (a[0] < b[0] || (a[0] == b[0] && LexLeq(a[1..], b[1..]))))
  }

  lemma {:induction false} LexTotal(a: string, b: string)
    ensures LexLeq(a, b) || LexLeq(b, a)
    decreases |a|
  {
    if |a| > 0 && |b| > 0 && a[0] == b[0] {
      LexTotal(a[1..], b[1..]);
    }
  }

  lemma {:induction false} LexTrans(a: string, b: string, c: string)
    requires LexLeq(a, b) && LexLeq(b, c)
    ensures LexLeq(a, c)
    decreases |a|
  {
    if |a| > 0 && a[0] == b[0] && b[0] == c[0] {
      LexTrans(a[1..], b[1..], c[1..]);
    }
  }

  lemma {:induction false} LexAntisym(a: string, b: string)
    requires LexLeq(a, b) && LexLeq(b, a)
    ensures a == b
    decreases |a|
  {
    if |a| > 0 {
      LexAntisym(a[1..], b[1..]);
      assert a == [a[0]] + a[1..] && b == [b[0]] + b[1..];
    }
  }

  /** Every string is at most any later one in reverse: descending order. */
  predicate Descending(s: seq<string>) {
    forall i, j :: 0 <= i < j < |s| ==> LexLeq(s[j], s[i])
  }

  /** Inserts x into a descending sequence before the first element not greater than it. */
  function Insert(x: string, s: seq<string>): (r: seq<string>)
    requires Descending(s)
    ensures Descending(r)
    ensures multiset(r) == multiset(s) + multiset{x}
    ensures |r| > 0 && (r[0] == x || (|s| > 0 && r[0] == s[0]))
    decreases |s|
  {
    if |s| == 0 then [x]
    else if LexLeq(s[0], x) then
      assert Descending([x] + s) by {
        forall j | 0 < j < |[x] + s| ensures LexLeq(([x] + s)[j], x) {
          if j > 1 {
            LexTrans(s[j - 1], s[0], x);
          }
        }
      }
      [x] + s
    else
      var rest := Insert(x, s[1..]);
      LexTotal(s[0], x);
      assert s == [s[0]] + s[1..];
      var r := [s[0]] + rest;
      assert LexLeq(rest[0], s[0]);
      assert Descending(r) by {
        forall i, j | 0 <= i < j < |r| ensures LexLeq(r[j], r[i]) {
          if i == 0 && j > 1 {
            LexTrans(rest[j - 1], rest[0], s[0]);
          }
        }
      }
      r
  }

  /** Insertion sort into descending order. */
  function SortDescending(s: seq<string>): (r: seq<string>)
    ensures Descending(r)
    ensures multiset(r) == multiset(s)
    decreases |s|
  {
    if |s| == 0 then []
    else
      assert s == [s[0]] + s[1..];
      Insert(s[0], SortDescending(s[1..]))
  }

  /**
   `getKFBlist`: the `.kfb` entries of the listing, each as often as listed, in descending order.
   */
  function GetKfbList(entries: seq<string>): (r: seq<string>)
    ensures Descending(r)
    ensures multiset(r) == multiset(KfbEntries(entries))
    ensures forall x :: x in r <==> x in entries && IsKfb(x)
  {
    var r := SortDescending(KfbEntries(entries));
    assert forall x :: x in r <==> x in multiset(r);
    assert forall x :: x in KfbEntries(entries) <==> x in multiset(KfbEntries(entries));
    r
  }

  /** Two descending orderings of the same entries coincide: the sorted order is the only one. */
  lemma {:induction false} DescendingUnique(a: seq<string>, b: seq<string>)
    requires Descending(a) && Descending(b) && multiset(a) == multiset(b)
    ensures a == b
    decreases |a|
  {
    if |a| > 0 {
      SameHead(a, b);
      SameTail(a, b);
      DescendingUnique(a[1..], b[1..]);
      assert a == [a[0]] + a[1..] && b == [b[0]] + b[1..];
    }
  }

  /** Two descending orderings of the same non-empty entries start with the same, greatest, entry. */
  lemma SameHead(a: seq<string>, b: seq<string>)
    requires Descending(a) && Descending(b) && multiset(a) == multiset(b) && |a| > 0
    ensures |b| > 0 && a[0] == b[0]
  {
    assert a[0] in multiset(b);
    assert |b| > 0;
    assert b[0] in multiset(a);
    var i :| 0 <= i < |b| && b[i] == a[0];
    var j :| 0 <= j < |a| && a[j] == b[0];
    assert LexLeq(b[i], b[0]) || i == 0;
    assert LexLeq(a[j], a[0]) || j == 0;
    if i != 0 && j != 0 {
      LexAntisym(a[0], b[0]);
    }
  }

  /** Removing a common first entry keeps the rests descending and with equal contents. */
  lemma SameTail(a: seq<string>, b: seq<string>)
    requires Descending(a) && Descending(b) && multiset(a) == multiset(b)
    requires |a| > 0 && |b| > 0 && a[0] == b[0]
    ensures Descending(a[1..]) && Descending(b[1..]) && multiset(a[1..]) == multiset(b[1..])
  {
    assert a == [a[0]] + a[1..] && b == [b[0]] + b[1..];
    assert multiset(a) == multiset{a[0]} + multiset(a[1..]);
    assert multiset(b) == multiset{b[0]} + multiset(b[1..]);
    assert multiset(a[1..]) == multiset(a) - multiset{a[0]};
    assert multiset(b[1..]) == multiset(b) - multiset{b[0]};
    DescendingTail(a);
    DescendingTail(b);
  }

  lemma DescendingTail(a: seq<string>)
    requires Descending(a) && |a| > 0
    ensures Descending(a[1..])
  {
    forall i, j | 0 <= i < j < |a[1..]| ensures LexLeq(a[1..][j], a[1..][i]) {
      assert a[1..][j] == a[j + 1] && a[1..][i] == a[i + 1];
    }
  }

  /** `dir/name` is a `.kfb` path exactly when the name ends in `.kfb` after at least one character. */
  lemma NamedKfb(dir: string, name: string)
    requires forall i :: 0 <= i < |name| ==> !IsSeparator(name[i])
    ensures IsKfb(dir + "/" + name) <==> |name| > 4 && name[|name| - 4..] == ".kfb"
  {
    FileNameIn(dir, name);
    IsKfbIff(dir + "/" + name);
  }
}
