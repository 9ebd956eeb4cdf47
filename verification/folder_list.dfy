/**
 * The scan-folder list as the configuration stores it: one string with the
 * folders joined by ';'. Reading splits on ';' and drops empty pieces;
 * writing removes repeated folders, keeping the first occurrence of each,
 * and joins the rest.
 */
module FolderList {

  const Separator: char := ';'

  /** str.split(';'): the pieces between separators; there is always at least one. */
  function Split(s: string): (parts: seq<string>)
    ensures |parts| >= 1
    ensures forall p | p in parts :: Separator !in p
  {
    if |s| == 0 then [""]
    else
      var rest := Split(s[1..]);
      if s[0] == Separator then [""] + rest
      else [[s[0]] + rest[0]] + rest[1..]
  }

  /** ';'.join(parts); the empty list joins to the empty string. */
  function Join(parts: seq<string>): (r: string)
    ensures parts != [] ==> parts[0] <= r
  {
    if |parts| == 0 then ""
    else if |parts| == 1 then parts[0]
    else parts[0] + [Separator] + Join(parts[1..])
  }

  /** [p for p in parts if p] */
  function DropEmpty(parts: seq<string>): (r: seq<string>)
    ensures forall p | p in r :: p != ""
    ensures forall p | p in parts && p != "" :: p in r
    ensures forall p | p in r :: p in parts
  {
    if parts == [] then []
    else (if parts[0] == "" then [] else [parts[0]]) + DropEmpty(parts[1..])
  }

  /** The list of distinct folders built by the setter's append loop, kept in first-occurrence order. */
  function Dedup(xs: seq<string>): (r: seq<string>)
    ensures |r| <= |xs|
    ensures forall x | x in r :: x in xs
  {
    if xs == [] then []
    else
      var d := Dedup(xs[..|xs| - 1]);
      if xs[|xs| - 1] in d then d else d + [xs[|xs| - 1]]
  }

  predicate Distinct(xs: seq<string>) {
    forall i, j | 0 <= i < j < |xs| :: xs[i] != xs[j]
  }

  /** The getter: the stored string split on ';' with empty pieces dropped. */
  function Parse(raw: string): (r: seq<string>)
    ensures forall p | p in r :: p != "" && Separator !in p
    ensures forall p | p in Split(raw) && p != "" :: p in r
    ensures forall p | p in r :: p in Split(raw)
  {
    DropEmpty(Split(raw))
  }

  /** The setter's stored string: the deduplicated folders joined by ';'. */
  function Format(folders: seq<string>): (r: string)
    ensures (forall f | f in folders :: Separator !in f) && folders != [] ==> Split(r) == Dedup(folders)
  {
    if (forall f | f in folders :: Separator !in f) && folders != [] then
      DedupElements(folders);
      assert folders[0] in Dedup(folders);
      SplitJoin(Dedup(folders));
      Join(Dedup(folders))
    else
      Join(Dedup(folders))
  }

  // ----- split and join -----

  lemma {:induction false} SplitNoSeparator(p: string)
    requires Separator !in p
    ensures Split(p) == [p]
  {
    if |p| > 0 {
      SplitNoSeparator(p[1..]);
      assert [p[0]] + p[1..] == p;
    }
  }

  lemma {:induction false} SplitCons(p: string, rest: string)
    requires Separator !in p
    ensures Split(p + [Separator] + rest) == [p] + Split(rest)
    decreases |p|
  {
    var s := p + [Separator] + rest;
    if |p| == 0 {
      assert s[1..] == rest;
    } else {
      assert s[1..] == p[1..] + [Separator] + rest;
      SplitCons(p[1..], rest);
      assert [p[0]] + p[1..] == p;
    }
  }

  /** Joining separator-free pieces and splitting again gives the pieces back. */
  lemma {:induction false} SplitJoin(parts: seq<string>)
    requires |parts| >= 1
    requires forall p | p in parts :: Separator !in p
    ensures Split(Join(parts)) == parts
  {
    if |parts| == 1 {
      SplitNoSeparator(parts[0]);
    } else {
      SplitJoin(parts[1..]);
      SplitCons(parts[0], Join(parts[1..]));
      assert [parts[0]] + parts[1..] == parts;
    }
  }

  lemma {:induction false} JoinPrepend(c: char, parts: seq<string>)
    requires |parts| >= 1
    ensures Join([[c] + parts[0]] + parts[1..]) == [c] + Join(parts)
  {
    var q := [[c] + parts[0]] + parts[1..];
    if |parts| > 1 {
      assert q[1..] == parts[1..];
    }
  }

  /** Splitting loses nothing: joining the pieces rebuilds the stored string exactly. */
  lemma {:induction false} JoinSplit(s: string)
    ensures Join(Split(s)) == s
  {
    if |s| > 0 {
      var rest := Split(s[1..]);
      JoinSplit(s[1..]);
      if s[0] == Separator {
        assert ([""] + rest)[1..] == rest;
        assert [s[0]] + s[1..] == s;
      } else {
        JoinPrepend(s[0], rest);
        assert [s[0]] + s[1..] == s;
      }
    }
  }

  lemma {:induction false} DropEmptyNonEmpty(parts: seq<string>)
    requires forall p | p in parts :: p != ""
    ensures DropEmpty(parts) == parts
  {
    if parts != [] {
      assert parts[0] in parts;
      assert forall p | p in parts[1..] :: p in parts;
      DropEmptyNonEmpty(parts[1..]);
      assert [parts[0]] + parts[1..] == parts;
    }
  }

  /** A single piece is kept exactly when it is not empty. */
  lemma DropEmptySingle(p: string)
    ensures DropEmpty([p]) == (if p == "" then [] else [p])
  {
    assert [p][1..] == [];
  }

  /**
   * The comprehension works piece by piece: it keeps the non-empty pieces
   * in their order and with their repetitions.
   */
  lemma {:induction false} DropEmptyAppend(a: seq<string>, b: seq<string>)
    ensures DropEmpty(a + b) == DropEmpty(a) + DropEmpty(b)
    decreases |a|
  {
    if a != [] {
      assert (a + b)[0] == a[0] && (a + b)[1..] == a[1..] + b;
      DropEmptyAppend(a[1..], b);
    } else {
      assert a + b == b;
    }
  }

  // ----- deduplication -----

  lemma {:induction false} DedupElements(xs: seq<string>)
    ensures forall x :: x in Dedup(xs) <==> x in xs
  {
    if xs != [] {
      var init := xs[..|xs| - 1];
      DedupElements(init);
      assert xs == init + [xs[|xs| - 1]];
    }
  }

  lemma {:induction false} DedupDistinct(xs: seq<string>)
    ensures Distinct(Dedup(xs))
  {
    if xs != [] {
      DedupDistinct(xs[..|xs| - 1]);
    }
  }

  /** A list without repeats is left as it is; in particular Dedup is idempotent. */
  lemma {:induction false} DedupOfDistinct(xs: seq<string>)
    requires Distinct(xs)
    ensures Dedup(xs) == xs
  {
    if xs != [] {
      var init := xs[..|xs| - 1];
      DedupOfDistinct(init);
      DedupElements(init);
      assert xs[|xs| - 1] !in init;
      assert init + [xs[|xs| - 1]] == xs;
    }
  }

  /** The index of the first occurrence of x in xs. */
  function FirstIndex(xs: seq<string>, x: string): (i: nat)
    requires x in xs
    ensures i < |xs| && xs[i] == x && x !in xs[..i]
  {
    if xs[0] == x then 0
    else
      var i := FirstIndex(xs[1..], x) + 1;
      assert xs[..i] == [xs[0]] + xs[1..][..i - 1];
      i
  }

  lemma FirstIndexPrefix(xs: seq<string>, y: string, x: string)
    requires x in xs
    ensures x in xs + [y] && FirstIndex(xs + [y], x) == FirstIndex(xs, x)
  {
    var i := FirstIndex(xs, x);
    var j := FirstIndex(xs + [y], x);
    assert forall k | 0 <= k < i :: xs[k] != x by {
      forall k | 0 <= k < i ensures xs[k] != x { assert xs[..i][k] == xs[k]; }
    }
    assert forall k | 0 <= k < j :: (xs + [y])[k] != x by {
      forall k | 0 <= k < j ensures (xs + [y])[k] != x { assert (xs + [y])[..j][k] == (xs + [y])[k]; }
    }
    assert (xs + [y])[i] == x;
  }

  /** Dedup keeps the folders in the order in which each first occurs in the input. */
  lemma {:induction false} DedupFirstOccurrenceOrder(xs: seq<string>)
    ensures forall i, j | 0 <= i < j < |Dedup(xs)| ::
              Dedup(xs)[i] in xs && Dedup(xs)[j] in xs &&
              FirstIndex(xs, Dedup(xs)[i]) < FirstIndex(xs, Dedup(xs)[j])
  {
    if xs != [] {
      var init := xs[..|xs| - 1];
      var y := xs[|xs| - 1];
      assert xs == init + [y];
      var d := Dedup(init);
      DedupFirstOccurrenceOrder(init);
      DedupElements(init);
      forall x | x in init
        ensures FirstIndex(xs, x) == FirstIndex(init, x)
      {
        FirstIndexPrefix(init, y, x);
      }
      if y in d {
        assert Dedup(xs) == d;
        forall i, j | 0 <= i < j < |d|
          ensures d[i] in xs && d[j] in xs && FirstIndex(xs, d[i]) < FirstIndex(xs, d[j])
        {
          assert d[i] in init && d[j] in init;
        }
      } else {
        assert Dedup(xs) == d + [y];
        assert FirstIndex(xs, y) == |init|;
        var e := d + [y];
        forall i, j | 0 <= i < j < |e|
          ensures e[i] in xs && e[j] in xs && FirstIndex(xs, e[i]) < FirstIndex(xs, e[j])
        {
          assert e[i] == d[i] && d[i] in init;
          if j < |d| {
            assert e[j] == d[j] && d[j] in init;
          } else {
            assert FirstIndex(xs, e[i]) == FirstIndex(init, d[i]) < |init|;
          }
        }
      }
    }
  }

  // ----- the stored form of the scan-folder list -----

  /**
   * Reading the setting back after writing a list gives the list without
   * repeats, in first-occurrence order, provided no folder is empty and no
   * folder contains ';'.
   */
  lemma ParseFormat(folders: seq<string>)
    requires forall f | f in folders :: f != "" && Separator !in f
    ensures Parse(Format(folders)) == Dedup(folders)
  {
    var d := Dedup(folders);
    DedupElements(folders);
    if d == [] {
      assert Split("") == [""];
    } else {
      SplitJoin(d);
      DropEmptyNonEmpty(d);
    }
  }

  /** The stored string holds no repeated folder. */
  lemma FormatDistinct(folders: seq<string>)
    requires forall f | f in folders :: f != "" && Separator !in f
    ensures Distinct(Parse(Format(folders)))
  {
    ParseFormat(folders);
    DedupDistinct(folders);
  }
}
