/**
 * Which directory entries the image inliner picks up, in what order, and the
 * key each one gets: `readdirSync(...).filter(...).sort()` and
 * `path.parse(file).name` (convert-images.js).
 */
module ImageFiles {
  import opened Wrappers
  import opened Text

  // ---------------------------------------------------------------------------
  // Selection by extension

  /** `toLowerCase` on one character, for the ASCII letters. */
  function LowerChar(c: char): char {
    if 'A' <= c <= 'Z' then (c as int + 32) as char else c
  }

  function ToLower(s: string): (r: string)
    ensures |r| == |s|
    ensures forall i :: 0 <= i < |s| ==> r[i] == LowerChar(s[i])
  {
    seq(|s|, i requires 0 <= i < |s| => LowerChar(s[i]))
  }

  /** The filter of the directory listing: a `.jpg` or `.jpeg` name, in any case. */
  predicate IsJpegName(name: string) {
    EndsWith(ToLower(name), ".jpg") || EndsWith(ToLower(name), ".jpeg")
  }

  /** Lowering twice is lowering once. */
  lemma {:induction false} ToLowerIdempotent(s: string)
    ensures ToLower(ToLower(s)) == ToLower(s)
  {
    forall i | 0 <= i < |s| ensures ToLower(ToLower(s))[i] == ToLower(s)[i] {
      assert ToLower(s)[i] == LowerChar(s[i]);
    }
  }

  /** The extension test does not depend on the case of the name. */
  lemma {:induction false} IsJpegNameLower(name: string)
    ensures IsJpegName(ToLower(name)) <==> IsJpegName(name)
  {
    ToLowerIdempotent(name);
  }

  /** `Array.prototype.filter` with `IsJpegName`: keeps the matching names, in order. */
  function Filter(names: seq<string>): (r: seq<string>)
    ensures forall x :: x in r ==> IsJpegName(x)
    ensures forall x :: IsJpegName(x) ==> multiset(r)[x] == multiset(names)[x]
    ensures multiset(r) <= multiset(names)
  {
    if |names| == 0 then []
    else
      assert names == [names[0]] + names[1..];
      (if IsJpegName(names[0]) then [names[0]] else []) + Filter(names[1..])
  }

  // ---------------------------------------------------------------------------
  // Ordering: `sort()` without a comparator compares names character by character

  /** `a` sorts no later than `b`: a prefix, or smaller at the first difference. */
  predicate Below(a: string, b: string)
    decreases |a|
  {
    |a| == 0 || (|b| > 0 && (a[0] < b[0] || (a[0] == b[0] && Below(a[1..], b[1..]))))
  }

  lemma {:induction false} BelowTotal(a: string, b: string)
    ensures Below(a, b) || Below(b, a)
    decreases |a|
  {
    if |a| > 0 && |b| > 0 && a[0] == b[0] {
      BelowTotal(a[1..], b[1..]);
    }
  }

  lemma {:induction false} BelowAntisymmetric(a: string, b: string)
    requires Below(a, b) && Below(b, a)
    ensures a == b
    decreases |a|
  {
    if |a| > 0 {
      BelowAntisymmetric(a[1..], b[1..]);
      assert a == [a[0]] + a[1..] && b == [b[0]] + b[1..];
    }
  }

  lemma {:induction false} BelowTransitive(a: string, b: string, c: string)
    requires Below(a, b) && Below(b, c)
    ensures Below(a, c)
    decreases |a|
  {
    if |a| > 0 && a[0] == b[0] && b[0] == c[0] {
      BelowTransitive(a[1..], b[1..], c[1..]);
    }
  }

  predicate Sorted(s: seq<string>) {
    forall i, j :: 0 <= i < j < |s| ==> Below(s[i], s[j])
  }

  /** Places `x` into a sorted sequence. */
  function Insert(x: string, s: seq<string>): (r: seq<string>)
    requires Sorted(s)
    ensures Sorted(r)
    ensures multiset(r) == multiset(s) + multiset{x}
    decreases |s|
  {
    if |s| == 0 then [x]
    else if Below(x, s[0]) then
      assert forall j :: 0 <= j < |s| ==> Below(x, s[j]) by {
        forall j | 0 <= j < |s| ensures Below(x, s[j]) {
          if j > 0 { BelowTransitive(x, s[0], s[j]); }
        }
      }
      [x] + s
    else
      BelowTotal(x, s[0]);
      var rest := Insert(x, s[1..]);
      assert s == [s[0]] + s[1..];
      assert forall j :: 0 <= j < |rest| ==> Below(s[0], rest[j]) by {
        forall j | 0 <= j < |rest| ensures Below(s[0], rest[j]) {
          assert rest[j] in multiset(rest);
          if rest[j] != x {
            assert rest[j] in s[1..];
          }
        }
      }
      [s[0]] + rest
  }

  /** The sort of the listing: an insertion sort by `Below`. */
  function Sort(s: seq<string>): (r: seq<string>)
    ensures Sorted(r)
    ensures multiset(r) == multiset(s)
  {
    if |s| == 0 then []
    else
      assert s == [s[0]] + s[1..];
      Insert(s[0], Sort(s[1..]))
  }

  /**
   * A sorted sequence is determined by its elements, so any correct sort of
   * the listing gives the order `Sort` gives.
   */
  lemma {:induction false} SortedUnique(a: seq<string>, b: seq<string>)
    requires Sorted(a) && Sorted(b) && multiset(a) == multiset(b)
    ensures a == b
    decreases |a|
  {
    if |a| > 0 {
      assert |b| == |multiset(b)| == |a|;
      SortedHeadsEqual(a, b);
      assert a == [a[0]] + a[1..] && b == [b[0]] + b[1..];
      assert multiset(a[1..]) == multiset(a) - multiset{a[0]};
      assert multiset(b[1..]) == multiset(b) - multiset{b[0]};
      SortedUnique(a[1..], b[1..]);
    }
  }

  lemma SortedHeadsEqual(a: seq<string>, b: seq<string>)
    requires Sorted(a) && Sorted(b) && multiset(a) == multiset(b) && |a| > 0 && |b| > 0
    ensures a[0] == b[0]
  {
    assert a[0] in multiset(b) && b[0] in multiset(a);
    var i :| 0 <= i < |b| && b[i] == a[0];
    var j :| 0 <= j < |a| && a[j] == b[0];
    BelowTotal(a[0], a[0]);
    assert Below(b[0], a[0]) by { if i > 0 { assert Below(b[0], b[i]); } }
    assert Below(a[0], b[0]) by { if j > 0 { assert Below(a[0], a[j]); } }
    BelowAntisymmetric(a[0], b[0]);
  }

  /**
   * The files the inliner processes (convert-images.js, lines 69-71): the
   * matching names of the listing, each as often as it is listed, sorted.
   */
  function SelectImages(listing: seq<string>): (r: seq<string>)
    ensures Sorted(r)
    ensures forall x :: x in r <==> x in listing && IsJpegName(x)
    ensures forall x :: multiset(r)[x] == if IsJpegName(x) then multiset(listing)[x] else 0
  {
    var r := Sort(Filter(listing));
    assert forall x :: x in r <==> x in multiset(r);
    r
  }

  /** No name twice in a sequence. */
  predicate Distinct(s: seq<string>) {
    forall i, j :: 0 <= i < j < |s| ==> s[i] != s[j]
  }

  /** The entries of a directory are distinct, so every selected file is processed once. */
  lemma SelectImagesDistinct(listing: seq<string>)
    requires Distinct(listing)
    ensures Distinct(SelectImages(listing))
  {
    var r := SelectImages(listing);
    forall i, j | 0 <= i < j < |r| ensures r[i] != r[j] {
      if r[i] == r[j] {
        RepeatedTwice(r, i, j);
        MultiplicityAtMostOne(listing, r[i]);
      }
    }
  }

  lemma RepeatedTwice(s: seq<string>, i: nat, j: nat)
    requires i < j < |s| && s[i] == s[j]
    ensures multiset(s)[s[i]] >= 2
  {
    assert s == s[..j] + s[j..];
    assert s[i] in s[..j] && s[j] in s[j..];
    assert multiset(s) == multiset(s[..j]) + multiset(s[j..]);
  }

  lemma {:induction false} MultiplicityAtMostOne(s: seq<string>, x: string)
    requires Distinct(s)
    ensures multiset(s)[x] <= 1
    decreases |s|
  {
    if |s| > 0 {
      assert s == [s[0]] + s[1..];
      MultiplicityAtMostOne(s[1..], x);
      if s[0] == x {
        assert x !in s[1..];
      }
    }
  }

  // ---------------------------------------------------------------------------
  // The key of a file: `path.parse(file).name`

  /** The index of the last '.' of `s`. */
  function LastDot(s: string): (r: Option<nat>)
    ensures r.Some? ==> r.value < |s| && s[r.value] == '.'
    ensures r.Some? ==> forall k :: r.value < k < |s| ==> s[k] != '.'
    ensures r.None? ==> forall k :: 0 <= k < |s| ==> s[k] != '.'
    decreases |s|
  {
    if |s| == 0 then None
    else if s[|s| - 1] == '.' then Some(|s| - 1)
    else LastDot(s[..|s| - 1])
  }

  /**
   * The name without its last extension. As in Node's `path.parse`, a dot at
   * the very start does not begin an extension (".jpg" is all name), and
   * ".." has none.
   */
  function Stem(name: string): (r: string)
    ensures r <= name
    ensures |r| < |name| ==>
      0 < |r| && name[|r|] == '.' && forall k :: |r| < k < |name| ==> name[k] != '.'
    ensures |r| == |name| ==>
      name == ".." || forall k :: 0 < k < |name| ==> name[k] != '.'
    ensures name == ".." ==> r == name
  {
    match LastDot(name)
    case None => name
    case Some(d) => if d == 0 || name == ".." then name else name[..d]
  }

  /**
   * The key of a selected file is its name less the matched extension
   * (`a.b.jpg` gives `a.b`, `x.JPEG` gives `x`), unless nothing would remain.
   */
  lemma StemOfJpegName(f: string)
    requires IsJpegName(f)
    ensures var n := if EndsWith(ToLower(f), ".jpg") then 4 else 5;
            Stem(f) == if |f| == n then f else f[..|f| - n]
  {
    var low := ToLower(f);
    var n := if EndsWith(low, ".jpg") then 4 else 5;
    assert low[|f| - n] == '.';
    assert f[|f| - n] == '.';
    assert forall k :: |f| - n < k < |f| ==> low[k] != '.';
    assert forall k :: |f| - n < k < |f| ==> f[k] != '.';
    if |f| == n {
      assert f != "..";
    }
  }
}
