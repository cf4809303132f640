/** Text helpers the resizer applies to file names and to the extension the
    user picks: ASCII lower-casing, removal of every '.', and the
    `splitext` split of a name into root and extension. */
module PathNames {

  /** Lower-case one character (upper-case ASCII letters only). */
  function LowerChar(c: char): char
  {
    if 'A' <= c <= 'Z' then (c as int + 32) as char else c
  }

  predicate IsUpper(c: char)
  {
    'A' <= c <= 'Z'
  }

  /** No character of `s` is an upper-case letter. */
  predicate LowerCase(s: string)
  {
    forall i :: 0 <= i < |s| ==> !IsUpper(s[i])
  }

  /** Lower-case a string character by character. */
  function Lower(s: string): (r: string)
    ensures |r| == |s|
    ensures forall i :: 0 <= i < |s| ==> r[i] == LowerChar(s[i])
  {
    seq(|s|, i requires 0 <= i < |s| => LowerChar(s[i]))
  }

  /** Lower-casing leaves no upper-case letter behind and keeps every
      character that is not a letter, so it is idempotent. */
  lemma LowerIsIdempotent(s: string)
    ensures LowerCase(Lower(s))
    ensures forall i :: 0 <= i < |s| ==> (Lower(s)[i] == '.' <==> s[i] == '.')
    ensures Lower(Lower(s)) == Lower(s)
  {
  }

  lemma LowerAppend(a: string, b: string)
    ensures Lower(a + b) == Lower(a) + Lower(b)
  {
  }

  /** The string with every '.' deleted, the rest kept in order
      (Python's `s.replace(".", "")`). */
  function RemoveDots(s: string): (r: string)
    ensures '.' !in r
    ensures |r| <= |s|
  {
    if s == [] then []
    else (if s[0] == '.' then [] else [s[0]]) + RemoveDots(s[1..])
  }

  /** Text without a dot passes through unchanged. */
  lemma {:induction false} RemoveDotsOfDotFree(s: string)
    requires '.' !in s
    ensures RemoveDots(s) == s
    decreases |s|
  {
    if s != [] {
      assert s == [s[0]] + s[1..];
      RemoveDotsCons(s[0], s[1..]);
      RemoveDotsOfDotFree(s[1..]);
    }
  }

  /** Removing dots keeps exactly the characters of the input other than
      '.'. */
  lemma {:induction false} RemoveDotsMembers(s: string, c: char)
    ensures c in RemoveDots(s) <==> c in s && c != '.'
    decreases |s|
  {
    if s != [] {
      assert s == [s[0]] + s[1..];
      RemoveDotsCons(s[0], s[1..]);
      RemoveDotsMembers(s[1..], c);
    }
  }

  /** Removing dots from a string that starts with `x`: `x` survives unless
      it is a dot, and the rest is handled alike. */
  lemma RemoveDotsCons(x: char, s: string)
    ensures RemoveDots([x] + s) == (if x == '.' then [] else [x]) + RemoveDots(s)
  {
    assert ([x] + s)[1..] == s;
  }

  /** Removing dots distributes over concatenation: every character other
      than '.' survives, in its original order. */
  lemma {:induction false} RemoveDotsAppend(a: string, b: string)
    ensures RemoveDots(a + b) == RemoveDots(a) + RemoveDots(b)
    decreases |a|
  {
    if a == [] {
      assert a + b == b;
    } else {
      var x, rest := a[0], a[1..];
      var head := if x == '.' then [] else [x];
      assert RemoveDots(a + b) == head + RemoveDots(rest + b) by {
        assert a + b == [x] + (rest + b);
        RemoveDotsCons(x, rest + b);
      }
      assert RemoveDots(a) == head + RemoveDots(rest) by {
        assert a == [x] + rest;
        RemoveDotsCons(x, rest);
      }
      RemoveDotsAppend(rest, b);
      assert head + (RemoveDots(rest) + RemoveDots(b)) == (head + RemoveDots(rest)) + RemoveDots(b);
    }
  }

  /** Index of the last occurrence of `c` in `s`, or -1 (Python's `rfind`). */
  function LastIndexOf(s: string, c: char): (r: int)
    ensures -1 <= r < |s|
    ensures r >= 0 ==> s[r] == c
    ensures forall k :: r < k < |s| ==> s[k] != c
    ensures r == -1 <==> c !in s
  {
    if s == [] then -1
    else if s[|s| - 1] == c then |s| - 1
    else LastIndexOf(s[..|s| - 1], c)
  }

  /** The contract of `LastIndexOf` pins down its result. */
  lemma LastIndexOfUnique(s: string, c: char, r: int)
    requires -1 <= r < |s|
    requires r >= 0 ==> s[r] == c
    requires forall k :: r < k < |s| ==> s[k] != c
    ensures r == LastIndexOf(s, c)
  {
  }

  /** Path separator of POSIX paths. */
  const Sep: char := '/'

  /** True when every character strictly between `lo` and `hi` is a dot. */
  predicate OnlyDots(p: string, lo: int, hi: int)
    requires -1 <= lo && hi <= |p|
  {
    forall k :: lo < k < hi ==> p[k] == '.'
  }

  /** Index at which `splitext` cuts `p`, or -1 when `p` has no extension:
      the last dot, provided it lies after the last separator and some
      character other than a dot precedes it in the final component. */
  function ExtensionStart(p: string): (d: int)
    ensures -1 <= d < |p|
    ensures d >= 0 ==> p[d] == '.'
  {
    var s := LastIndexOf(p, Sep);
    var d := LastIndexOf(p, '.');
    if d > s && !OnlyDots(p, s, d) then d else -1
  }

  /** Python's `os.path.splitext`: the pair (root, ext) with root + ext == p,
      cut at `ExtensionStart` when there is one. */
  function SplitExt(p: string): (r: (string, string))
    ensures |r.0| + |r.1| == |p|
    ensures r.1 == [] || r.1[0] == '.'
  {
    var d := ExtensionStart(p);
    if d < 0 then (p, []) else (p[..d], p[d..])
  }

  /** `splitext` loses nothing: the root followed by the extension is the
      name, and the root is the name exactly when there is no extension. */
  lemma SplitExtPartition(p: string)
    ensures SplitExt(p).0 + SplitExt(p).1 == p
    ensures SplitExt(p).1 == [] <==> SplitExt(p).0 == p
  {
    var d := ExtensionStart(p);
    if d >= 0 {
      assert p[..d] + p[d..] == p;
    }
  }

  /** The extension is empty or starts at the last dot of the final
      component, holding no further dot and no separator; and a non-empty
      extension is preceded by a character other than a dot in that
      component, so leading dots never start an extension. */
  lemma SplitExtShape(p: string)
    ensures var r := SplitExt(p);
      && (r.1 == [] || (r.1[0] == '.' && '.' !in r.1[1..] && Sep !in r.1))
      && (r.1 != [] ==> exists k :: 0 <= k < |r.0| && r.0[k] != '.' && Sep !in r.0[k..])
  {
    var d := ExtensionStart(p);
    if d >= 0 {
      var s := LastIndexOf(p, Sep);
      var k :| s < k < d && p[k] != '.';
      assert p[d..][1..] == p[d + 1..];
      assert forall j :: k <= j < |p[..d]| ==> p[..d][k..][j - k] == p[j];
    }
  }

  /** A name whose final component has a non-dot character followed by a
      dot-free, separator-free ".ext" splits exactly there. */
  lemma SplitExtOfSuffix(root: string, ext: string)
    requires exists k :: 0 <= k < |root| && root[k] != '.' && Sep !in root[k..]
    requires '.' !in ext && Sep !in ext
    ensures SplitExt(root + "." + ext) == (root, "." + ext)
  {
    var p := root + "." + ext;
    var d := |root|;
    assert p[d] == '.';
    assert forall j :: d < j < |p| ==> p[j] == ext[j - d - 1];
    LastIndexOfUnique(p, '.', d);
    var k :| 0 <= k < |root| && root[k] != '.' && Sep !in root[k..];
    assert forall j :: k <= j < |p| ==> p[j] != Sep by {
      forall j | k <= j < |p|
        ensures p[j] != Sep
      {
        if j < d {
          assert p[j] == root[k..][j - k];
        } else if j > d {
          assert p[j] == ext[j - d - 1];
        }
      }
    }
    var s := LastIndexOf(p, Sep);
    assert s < k;
    assert p[k] == root[k];
    assert !OnlyDots(p, s, d);
    assert ExtensionStart(p) == d;
    assert p[..d] == root;
    assert p[d..] == "." + ext;
  }

  /** Lower-casing keeps every dot and separator where it was and creates
      none. */
  lemma LowerKeepsMarks(p: string)
    ensures forall i :: 0 <= i < |p| ==> (Lower(p)[i] == Sep <==> p[i] == Sep)
    ensures forall i :: 0 <= i < |p| ==> (Lower(p)[i] == '.' <==> p[i] == '.')
  {
  }

  /** Lower-casing does not move the point where `splitext` cuts. */
  lemma ExtensionStartLower(p: string)
    ensures ExtensionStart(Lower(p)) == ExtensionStart(p)
  {
    var q := Lower(p);
    LowerKeepsMarks(p);
    LastIndexOfUnique(q, Sep, LastIndexOf(p, Sep));
    LastIndexOfUnique(q, '.', LastIndexOf(p, '.'));
    var s := LastIndexOf(p, Sep);
    var d := LastIndexOf(p, '.');
    if d > s {
      assert OnlyDots(q, s, d) <==> OnlyDots(p, s, d);
    }
  }

  /** Lower-casing never moves a dot or a separator, so it commutes with
      `splitext`: the extension of the lower-cased name is the lower-cased
      extension. */
  lemma SplitExtLower(p: string)
    ensures SplitExt(Lower(p)) == (Lower(SplitExt(p).0), Lower(SplitExt(p).1))
  {
    ExtensionStartLower(p);
    var e := ExtensionStart(p);
    if e >= 0 {
      LowerAppend(p[..e], p[e..]);
      assert p[..e] + p[e..] == p;
      var q := Lower(p);
      assert q[..e] == Lower(p[..e]);
      assert q[e..] == Lower(p[e..]);
    }
  }
}
