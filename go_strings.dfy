/**
 * The few pieces of Go's `strings` and `path/filepath` packages that the
 * image converter relies on, written out over `string` (= seq<char>).
 * Paths use '/' as the only separator and letters are ASCII.
 */
module GoStrings {

  /** The final '/'-separated element of a path: everything after the last '/'. */
  function FinalElement(p: string): (e: string)
    ensures |e| <= |p| && e == p[|p| - |e|..]
    ensures '/' !in e
    ensures |e| == |p| || p[|p| - |e| - 1] == '/'
  {
    if p == [] || p[|p| - 1] == '/' then []
    else FinalElement(p[..|p| - 1]) + [p[|p| - 1]]
  }

  /**
   * `filepath.Ext`: the suffix of the final path element that starts at its
   * last '.', or "" when that element has no '.'.
   */
  function Ext(p: string): string
  {
    if p == [] || p[|p| - 1] == '/' then []
    else if p[|p| - 1] == '.' then "."
    else
      var r' := Ext(p[..|p| - 1]);
      if r' == [] then [] else r' + [p[|p| - 1]]
  }

  /** The extension is a suffix of the path. */
  lemma {:induction false} ExtIsSuffix(p: string)
    ensures |Ext(p)| <= |p| && Ext(p) == p[|p| - |Ext(p)|..]
  {
    if p != [] && p[|p| - 1] != '/' && p[|p| - 1] != '.' {
      var q, c := p[..|p| - 1], p[|p| - 1];
      ExtIsSuffix(q);
      var r' := Ext(q);
      if r' != [] {
        assert p == q + [c];
        assert p[|p| - |r'| - 1..] == r' + [c];
      }
    }
  }

  /** A non-empty extension starts at its only '.' and holds no '/'. */
  lemma {:induction false} ExtHasOneDot(p: string)
    ensures Ext(p) != [] ==> Ext(p)[0] == '.' && '.' !in Ext(p)[1..] && '/' !in Ext(p)
  {
    if p != [] && p[|p| - 1] != '/' && p[|p| - 1] != '.' {
      var q, c := p[..|p| - 1], p[|p| - 1];
      ExtHasOneDot(q);
      var r' := Ext(q);
      if r' != [] {
        assert (r' + [c])[1..] == r'[1..] + [c];
      }
    }
  }

  /** `filepath.Ext` is empty exactly when the final element has no '.'. */
  lemma {:induction false} ExtEmpty(p: string)
    ensures Ext(p) == [] <==> '.' !in FinalElement(p)
  {
    if p != [] && p[|p| - 1] != '/' && p[|p| - 1] != '.' {
      var q, c := p[..|p| - 1], p[|p| - 1];
      ExtEmpty(q);
      assert FinalElement(p) == FinalElement(q) + [c];
    }
  }

  /** `strings.TrimLeft(s, cutset)` for a one-character cutset: drops every leading `cut`. */
  function TrimLeft(s: string, cut: char): string
  {
    if s != [] && s[0] == cut then TrimLeft(s[1..], cut) else s
  }

  /** `TrimLeft` keeps a suffix, removes only `cut`, and leaves no leading `cut`. */
  lemma {:induction false} TrimLeftShape(s: string, cut: char)
    ensures |TrimLeft(s, cut)| <= |s| && TrimLeft(s, cut) == s[|s| - |TrimLeft(s, cut)|..]
    ensures forall i :: 0 <= i < |s| - |TrimLeft(s, cut)| ==> s[i] == cut
    ensures TrimLeft(s, cut) == [] || TrimLeft(s, cut)[0] != cut
  {
    if s != [] && s[0] == cut {
      var t := s[1..];
      TrimLeftShape(t, cut);
      var r := TrimLeft(t, cut);
      assert TrimLeft(s, cut) == r;
      assert s[|s| - |r|..] == t[|t| - |r|..];
      forall i | 0 <= i < |s| - |r|
        ensures s[i] == cut
      {
        if i > 0 {
          assert s[i] == t[i - 1];
        }
      }
    }
  }

  predicate HasSuffix(s: string, suffix: string)
  {
    |suffix| <= |s| && s[|s| - |suffix|..] == suffix
  }

  /** `strings.TrimSuffix`: removes `suffix` once when `s` ends with it. */
  function TrimSuffix(s: string, suffix: string): string
  {
    if HasSuffix(s, suffix) then s[..|s| - |suffix|] else s
  }

  /** `TrimSuffix` undoes appending the suffix, and changes nothing when the suffix is absent. */
  lemma TrimSuffixSpec(s: string, suffix: string)
    ensures HasSuffix(s, suffix) ==> TrimSuffix(s, suffix) + suffix == s
    ensures !HasSuffix(s, suffix) ==> TrimSuffix(s, suffix) == s
  {
  }

  predicate IsUpperChar(c: char)
  {
    'A' <= c <= 'Z'
  }

  function LowerChar(c: char): char
  {
    if IsUpperChar(c) then (c as int + 32) as char else c
  }

  /** No ASCII upper-case letter occurs in `s`. */
  predicate IsLower(s: string)
  {
    forall i :: 0 <= i < |s| ==> !IsUpperChar(s[i])
  }

  /** `strings.ToLower`, restricted to ASCII letters. */
  function ToLower(s: string): (r: string)
    ensures |r| == |s|
  {
    if s == [] then [] else ToLower(s[..|s| - 1]) + [LowerChar(s[|s| - 1])]
  }

  /**
   * Every character is lower-cased in place, so the result has no upper-case
   * letter and a lower-case string is left as it is.
   */
  lemma {:induction false} ToLowerPointwise(s: string)
    ensures forall i :: 0 <= i < |s| ==> ToLower(s)[i] == LowerChar(s[i])
    ensures IsLower(ToLower(s))
    ensures IsLower(s) ==> ToLower(s) == s
  {
    if s != [] {
      var q := s[..|s| - 1];
      ToLowerPointwise(q);
      assert forall i :: 0 <= i < |q| ==> s[i] == q[i];
      if IsLower(s) {
        assert IsLower(q);
        assert s == q + [s[|s| - 1]];
      }
    }
  }

  /** Lower-casing does not move any '.' or '/', so it commutes with `filepath.Ext`. */
  lemma {:induction false} ExtOfLower(p: string)
    ensures Ext(ToLower(p)) == ToLower(Ext(p))
  {
    if p != [] {
      var q, c := p[..|p| - 1], p[|p| - 1];
      var lp := ToLower(p);
      LowerSnoc(q, c);
      assert p == q + [c];
      assert lp[..|lp| - 1] == ToLower(q) && lp[|lp| - 1] == LowerChar(c);
      if c != '/' && c != '.' {
        ExtOfLower(q);
        if Ext(q) != [] {
          LowerSnoc(Ext(q), c);
        }
      }
    }
  }

  lemma LowerSnoc(s: string, c: char)
    ensures ToLower(s + [c]) == ToLower(s) + [LowerChar(c)]
  {
    assert (s + [c])[..|s|] == s;
  }

  /** Lower-casing does not create or remove a leading '.'. */
  lemma {:induction false} TrimLeftOfLower(s: string)
    ensures TrimLeft(ToLower(s), '.') == ToLower(TrimLeft(s, '.'))
  {
    ToLowerPointwise(s);
    if s != [] && s[0] == '.' {
      ToLowerPointwise(s[1..]);
      assert ToLower(s)[1..] == ToLower(s[1..]);
      TrimLeftOfLower(s[1..]);
    }
  }

  /** `filepath.Ext` only looks at the final element: a directory prefix changes nothing. */
  lemma {:induction false} ExtIgnoresDirectory(dir: string, name: string)
    requires '/' !in name
    ensures Ext(dir + "/" + name) == Ext(name)
  {
    var p := dir + "/" + name;
    if name == [] {
      assert p[|p| - 1] == '/';
    } else {
      var n := |name|;
      var q := name[..n - 1];
      assert p[..|p| - 1] == dir + "/" + q;
      assert p[|p| - 1] == name[n - 1];
      ExtIgnoresDirectory(dir, q);
    }
  }

  /** The extension of `prefix + "." + ext` is "." + ext when `ext` holds no '.' and no '/'. */
  lemma {:induction false} ExtAfterLastDot(prefix: string, ext: string)
    requires '.' !in ext && '/' !in ext
    ensures Ext(prefix + "." + ext) == "." + ext
  {
    var p := prefix + "." + ext;
    if ext != [] {
      var e', c := ext[..|ext| - 1], ext[|ext| - 1];
      assert p[..|p| - 1] == prefix + "." + e';
      assert p[|p| - 1] == c;
      ExtAfterLastDot(prefix, e');
      assert "." + e' + [c] == "." + ext;
    }
  }

  lemma TrimOneDot(s: string)
    requires s == [] || s[0] != '.'
    ensures TrimLeft("." + s, '.') == s
  {
    assert ("." + s)[1..] == s;
  }

  /** A string with no '.' has no extension. */
  lemma ExtWithoutDot(p: string)
    requires '.' !in p
    ensures Ext(p) == []
  {
  }

  /** Lower-casing keeps every '.' and adds none. */
  lemma DotsOfLower(s: string)
    ensures '.' in ToLower(s) <==> '.' in s
  {
    var l := ToLower(s);
    ToLowerPointwise(s);
    if '.' in s {
      var i :| 0 <= i < |s| && s[i] == '.';
      assert l[i] == '.';
    }
    if '.' in l {
      var i :| 0 <= i < |l| && l[i] == '.';
      assert s[i] == '.';
    }
  }
}
