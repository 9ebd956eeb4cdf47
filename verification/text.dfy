/**
 * Character and string helpers with Python's meaning, restricted to ASCII:
 * str.lower, str.strip, the `in` substring test, pathlib's name/stem and
 * the suffix test that glob patterns such as `*.iso` perform on a file name.
 */
module Text {

  /** Python's str.isspace on the ASCII range: \t \n \v \f \r, the separators 0x1c-0x1f and the space. */
  predicate IsSpace(c: char) {
    9 <= c as int <= 13 || 28 <= c as int <= 32
  }

  function LowerChar(c: char): char {
    if 'A' <= c <= 'Z' then (c as int + 32) as char else c
  }

  /** str.lower on ASCII letters; every other character is kept. */
  function Lower(s: string): (r: string)
    ensures |r| == |s|
    ensures forall k | 0 <= k < |r| :: !('A' <= r[k] <= 'Z')
    ensures forall k | 0 <= k < |s| && !('A' <= s[k] <= 'Z') :: r[k] == s[k]
    ensures forall k | 0 <= k < |s| && 'A' <= s[k] <= 'Z' :: r[k] == (s[k] as int + 32) as char
  {
    seq(|s|, i requires 0 <= i < |s| => LowerChar(s[i]))
  }

  /** Drops leading whitespace: the result is a suffix of s and only whitespace was dropped. */
  function TrimStart(s: string): (r: string)
    ensures |r| <= |s| && r == s[|s| - |r|..]
    ensures forall k | 0 <= k < |s| - |r| :: IsSpace(s[k])
    ensures r == [] || !IsSpace(r[0])
  {
    if |s| > 0 && IsSpace(s[0]) then TrimStart(s[1..]) else s
  }

  /** Drops trailing whitespace: the result is a prefix of s and only whitespace was dropped. */
  function TrimEnd(s: string): (r: string)
    ensures |r| <= |s| && r == s[..|r|]
    ensures forall k | |r| <= k < |s| :: IsSpace(s[k])
    ensures r == [] || !IsSpace(r[|r| - 1])
  {
    if |s| > 0 && IsSpace(s[|s| - 1]) then TrimEnd(s[..|s| - 1]) else s
  }

  /** str.strip(): s without its leading and trailing whitespace. */
  function Strip(s: string): (r: string)
    ensures r == [] || (!IsSpace(r[0]) && !IsSpace(r[|r| - 1]))
  {
    var t := TrimStart(s);
    var r := TrimEnd(t);
    assert r != [] ==> r[0] == t[0];
    r
  }

  /** Only whitespace lies before index i and from index j on. */
  predicate SpaceOutside(s: string, i: int, j: int) {
    && 0 <= i <= j <= |s|
    && (forall k | 0 <= k < i :: IsSpace(s[k]))
    && (forall k | j <= k < |s| :: IsSpace(s[k]))
  }

  /**
   * A piece r cut out of s by dropping whitespace in front (leaving the
   * suffix t) and then whitespace behind lies between two runs of whitespace.
   */
  lemma SliceBetweenSpaces(s: string, t: string, r: string)
    requires |t| <= |s| && t == s[|s| - |t|..]
    requires forall k | 0 <= k < |s| - |t| :: IsSpace(s[k])
    requires |r| <= |t| && r == t[..|r|]
    requires forall k | |r| <= k < |t| :: IsSpace(t[k])
    ensures SpaceOutside(s, |s| - |t|, |s| - |t| + |r|)
    ensures r == s[|s| - |t|..|s| - |t| + |r|]
  {
    var i := |s| - |t|;
    forall k | i + |r| <= k < |s| ensures IsSpace(s[k]) {
      assert s[k] == t[k - i];
    }
  }

  /** The two ends of the stripped string inside s. */
  lemma StripBounds(s: string) returns (i: nat, j: nat)
    ensures SpaceOutside(s, i, j) && Strip(s) == s[i..j]
  {
    var t := TrimStart(s);
    var r := TrimEnd(t);
    i := |s| - |t|;
    j := i + |r|;
    SliceBetweenSpaces(s, t, r);
    assert r == s[i..j];
    assert Strip(s) == r;
  }

  /** The stripped string is the slice of s between two runs of whitespace. */
  lemma StripSlice(s: string)
    ensures exists i, j :: SpaceOutside(s, i, j) && Strip(s) == s[i..j]
  {
    var i, j := StripBounds(s);
  }

  lemma StripChars(s: string)
    ensures forall k | 0 <= k < |Strip(s)| :: Strip(s)[k] in s
  {
    var i, j := StripBounds(s);
    forall k | 0 <= k < |Strip(s)| ensures Strip(s)[k] in s {
      assert Strip(s)[k] == s[i + k];
    }
  }

  /** A string without upper-case ASCII letters is its own lower-casing. */
  lemma LowerOfLowerCase(s: string)
    requires forall k | 0 <= k < |s| :: !('A' <= s[k] <= 'Z')
    ensures Lower(s) == s
  {
  }

  /** A string that neither starts nor ends with whitespace is its own strip. */
  lemma StripUntrimmed(s: string)
    requires s == [] || (!IsSpace(s[0]) && !IsSpace(s[|s| - 1]))
    ensures Strip(s) == s
  {
  }

  /** Python's `needle in hay`: needle occurs as a contiguous piece of hay. */
  predicate Contains(hay: string, needle: string)
    decreases |hay|
  {
    needle <= hay || (|hay| > 0 && Contains(hay[1..], needle))
  }

  /** `needle in hay` holds exactly when needle sits at some offset of hay. */
  lemma {:induction false} ContainsAt(hay: string, needle: string)
    ensures Contains(hay, needle) <==>
            exists i | 0 <= i <= |hay| - |needle| :: hay[i..][..|needle|] == needle
    decreases |hay|
  {
    if needle <= hay {
      assert hay[0..][..|needle|] == needle;
    }
    if |hay| > 0 {
      ContainsAt(hay[1..], needle);
      if Contains(hay[1..], needle) {
        var i :| 0 <= i <= |hay[1..]| - |needle| && hay[1..][i..][..|needle|] == needle;
        assert hay[i + 1..] == hay[1..][i..];
      }
      if exists i | 0 <= i <= |hay| - |needle| :: hay[i..][..|needle|] == needle {
        var i :| 0 <= i <= |hay| - |needle| && hay[i..][..|needle|] == needle;
        if i > 0 {
          assert hay[1..][i - 1..] == hay[i..];
        } else {
          assert needle <= hay;
        }
      }
    } else {
      if exists i | 0 <= i <= |hay| - |needle| :: hay[i..][..|needle|] == needle {
        assert needle <= hay;
      }
    }
  }

  /** The empty string is in every string, as in Python. */
  lemma ContainsEmpty(hay: string)
    ensures Contains(hay, "")
  {
  }

  predicate EndsWith(s: string, suffix: string) {
    |suffix| <= |s| && s[|s| - |suffix|..] == suffix
  }

  /**
   * pathlib's name on a '/'-separated path: the part after the last '/'.
   * The result is a suffix of the path, holds no '/', and is preceded by a '/'
   * whenever it is not the whole path.
   */
  function Name(path: string): (r: string)
    ensures |r| <= |path|
  {
    if |path| == 0 || path[|path| - 1] == '/' then "" else Name(path[..|path| - 1]) + [path[|path| - 1]]
  }

  lemma {:induction false} NameSpec(path: string)
    ensures var r := Name(path);
      && |r| <= |path| && r == path[|path| - |r|..]
      && '/' !in r
      && (|r| < |path| ==> path[|path| - |r| - 1] == '/')
  {
    if |path| > 0 && path[|path| - 1] != '/' {
      var front, last := path[..|path| - 1], path[|path| - 1];
      var n := Name(front);
      NameSpec(front);
      assert Name(path) == n + [last];
      assert '/' !in n + [last];
      assert path == front + [last];
      assert path[|front| - |n|..] == front[|front| - |n|..] + [last];
      assert |n| < |front| ==> path[|front| - |n| - 1] == front[|front| - |n| - 1];
    }
  }

  /** str.rfind for one character: the last index of c in s, or -1. */
  function RFind(s: string, c: char): (r: int)
    ensures -1 <= r < |s|
    ensures r >= 0 ==> s[r] == c
    ensures forall k | r < k < |s| :: s[k] != c
  {
    if |s| == 0 then -1
    else if s[|s| - 1] == c then |s| - 1
    else RFind(s[..|s| - 1], c)
  }

  /**
   * pathlib's stem: the name without its final suffix. The suffix starts at
   * the last '.', and counts only when that dot is neither the first nor the
   * last character of the name ('.iso' and 'a.' are their own stems).
   */
  function Stem(path: string): (r: string)
    ensures |r| <= |Name(path)| && r == Name(path)[..|r|]
    ensures r == [] <==> Name(path) == []
    ensures '.' !in Name(path) ==> r == Name(path)
    ensures Name(path) != [] && Name(path)[0] == '.' && '.' !in Name(path)[1..] ==> r == Name(path)
    ensures Name(path) != [] && Name(path)[|Name(path)| - 1] == '.' ==> r == Name(path)
    ensures r != Name(path) ==>
              0 < |r| < |Name(path)| - 1 && Name(path)[|r|] == '.' && '.' !in Name(path)[|r| + 1..]
  {
    var n := Name(path);
    var i := RFind(n, '.');
    if 0 < i < |n| - 1 then n[..i] else n
  }

  /**
   * A file named x + ext, where ext is '.' followed by a dot-free non-empty
   * extension and x is not empty, has stem x: the title a scan derives from
   * '/games/Halo3.iso' is 'Halo3'.
   */
  lemma StemDropsExtension(path: string, x: string, ext: string)
    requires Name(path) == x + ext
    requires |x| > 0 && |ext| > 1 && ext[0] == '.' && '.' !in ext[1..]
    ensures Stem(path) == x
  {
    var n := Name(path);
    assert n[|x|] == '.';
    assert forall k | |x| < k < |n| :: n[k] != '.' by {
      forall k | |x| < k < |n| ensures n[k] != '.' {
        assert n[k] == ext[1..][k - |x| - 1];
      }
    }
    assert RFind(n, '.') == |x|;
    assert n[..|x|] == x;
  }
}
