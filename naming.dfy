/** The name of an exported file (`runOne`, app.js): the original name with
    its extension cut off by the pattern `\.[^.]+$`, then
    `_ratio<W>x<H>` and the extension, `.jpg` when there was none. */
module Naming {
  import opened Wrappers
  import opened Decimal
  import opened Ratio

  /** The pattern `\.[^.]+$` matches from index `p`: a point, at least one
      character, no further point, then the end of the name. */
  predicate ExtensionAt(s: string, p: int)
  {
    0 <= p < |s| - 1 && s[p] == '.' && forall j :: p < j < |s| ==> s[j] != '.'
  }

  /** The leftmost match at or after `i`, as a regular-expression search
      tries start positions left to right. */
  function MatchFrom(s: string, i: nat): (m: Option<nat>)
    requires i <= |s|
    ensures m.Some? ==> i <= m.value && ExtensionAt(s, m.value)
    ensures m.Some? ==> forall q :: i <= q < m.value ==> !ExtensionAt(s, q)
    ensures m.None? ==> forall q :: i <= q < |s| ==> !ExtensionAt(s, q)
    decreases |s| - i
  {
    if i == |s| then None
    else if ExtensionAt(s, i) then Some(i)
    else MatchFrom(s, i + 1)
  }

  /** Where `name.match(/\.[^.]+$/)` matches, if anywhere. */
  function ExtensionMatch(name: string): (m: Option<nat>)
    ensures m.Some? ==> ExtensionAt(name, m.value)
    ensures m.None? ==> forall q :: 0 <= q < |name| ==> !ExtensionAt(name, q)
  {
    MatchFrom(name, 0)
  }

  /** `name.replace(/\.[^.]+$/, '')`. */
  function BaseName(name: string): (b: string)
    ensures b <= name
  {
    match ExtensionMatch(name)
    case Some(p) => name[..p]
    case None => name
  }

  /** `ext ? ext[0] : '.jpg'`. */
  function Extension(name: string): (e: string)
    ensures |e| >= 2 && e[0] == '.'
  {
    match ExtensionMatch(name)
    case Some(p) => name[p..]
    case None => ".jpg"
  }

  /** `base + '_ratio' + canvas.width + 'x' + canvas.height + ext`. */
  function OutputName(name: string, width: int, height: int): string
  {
    BaseName(name) + Tag(width, height) + Extension(name)
  }

  /** The part inserted between base name and extension. */
  function Tag(width: int, height: int): (t: string)
    ensures '.' !in t
  {
    "_ratio" + IntToString(width) + "x" + IntToString(height)
  }

  /** The size tag names the frame: different sizes give different tags. */
  lemma TagInjective(w1: int, h1: int, w2: int, h2: int)
    requires Tag(w1, h1) == Tag(w2, h2)
    ensures w1 == w2 && h1 == h2
  {
    TagParts(w1, h1);
    TagParts(w2, h2);
    SplitAtMark(IntToString(w1), IntToString(h1), IntToString(w2), IntToString(h2), 'x');
    IntToStringInjective(w1, w2);
    IntToStringInjective(h1, h2);
  }

  /** After `_ratio`, the tag is the width, an `x` and the height. */
  lemma TagParts(w: int, h: int)
    ensures Tag(w, h)[6..] == IntToString(w) + ['x'] + IntToString(h)
    ensures 'x' !in IntToString(w)
  {
    var a, b := IntToString(w), IntToString(h);
    assert Tag(w, h) == "_ratio" + a + "x" + b;
    DropPrefix("_ratio", a, b);
    NoMark(w);
  }

  /** Dropping the prefix `p` of `p + a + "x" + b`. */
  lemma DropPrefix(p: string, a: string, b: string)
    ensures (p + a + "x" + b)[|p|..] == a + ['x'] + b
  {
    assert p + a + "x" + b == p + (a + ['x'] + b);
  }

  /** A rendered integer holds no `x`. */
  lemma NoMark(i: int)
    ensures 'x' !in IntToString(i)
  {
    var s := IntToString(i);
    if i >= 0 {
      assert forall k :: 0 <= k < |s| ==> IsDigit(s[k]);
    } else {
      assert forall k :: 1 <= k < |s| ==> s[k] == s[1..][k - 1] && IsDigit(s[k]);
    }
  }

  /** A mark that occurs in neither prefix splits both strings at the same
      place. */
  lemma SplitAtMark(a1: string, b1: string, a2: string, b2: string, c: char)
    requires c !in a1 && c !in a2 && a1 + [c] + b1 == a2 + [c] + b2
    ensures a1 == a2 && b1 == b2
  {
    var s := a1 + [c] + b1;
    FirstMark(a1, b1, c);
    FirstMark(a2, b2, c);
    assert |a1| == |a2|;
    assert a1 == s[..|a1|] && a2 == s[..|a2|];
    assert b1 == s[|a1| + 1..] && b2 == (a2 + [c] + b2)[|a2| + 1..];
  }

  /** The first `c` of `a + [c] + b` is the one after `a` when `a` has none. */
  lemma FirstMark(a: string, b: string, c: char)
    requires c !in a
    ensures FirstIndex(a + [c] + b, c) == |a|
  {
    var s := a + [c] + b;
    assert s[|a|] == c;
    assert forall j :: 0 <= j < |a| ==> s[j] == a[j];
  }

  /** At most one index can start a match: it is the last point. */
  lemma MatchIsUnique(s: string, p: int, q: int)
    requires ExtensionAt(s, p) && ExtensionAt(s, q)
    ensures p == q
  {
  }

  /** The pattern matches exactly when the name contains a point and does
      not end with one. */
  lemma MatchExistsIff(name: string)
    ensures ExtensionMatch(name).Some? <==> ('.' in name && name[|name| - 1] != '.')
  {
    if '.' in name && name[|name| - 1] != '.' {
      var p := LastPoint(name);
      assert ExtensionAt(name, p);
    }
  }

  /** The index of the last point of a name that has one. */
  function LastPoint(s: string): (p: nat)
    requires '.' in s
    ensures p < |s| && s[p] == '.' && forall j :: p < j < |s| ==> s[j] != '.'
  {
    if s[|s| - 1] == '.' then |s| - 1
    else
      assert '.' in s[..|s| - 1] by {
        var k :| 0 <= k < |s| && s[k] == '.';
        assert s[..|s| - 1][k] == '.';
      }
      LastPoint(s[..|s| - 1])
  }

  /** With a match, base name and extension put back together give the name;
      the extension is a point followed by at least one character and no
      further point. */
  lemma SplitRoundTrip(name: string)
    requires ExtensionMatch(name).Some?
    ensures BaseName(name) + Extension(name) == name
    ensures var e := Extension(name);
      |e| >= 2 && e[0] == '.' && forall j :: 0 < j < |e| ==> e[j] != '.'
  {
    var p := ExtensionMatch(name).value;
    assert name[..p] + name[p..] == name;
    var e := name[p..];
    assert forall j :: 0 < j < |e| ==> e[j] == name[p + j];
  }

  /** Without a match the base name is the whole name and the extension
      defaults to `.jpg`. */
  lemma NoMatchKeepsName(name: string)
    requires ExtensionMatch(name).None?
    ensures BaseName(name) == name && Extension(name) == ".jpg"
  {
  }

  /** The exported name keeps the original extension (or `.jpg`), and
      cutting its extension again gives the base name with the size tag:
      the tag holds no point, so the pattern still matches the extension. */
  lemma {:induction false} OutputNameKeepsExtension(name: string, width: int, height: int)
    ensures Extension(OutputName(name, width, height)) == Extension(name)
    ensures BaseName(OutputName(name, width, height)) == BaseName(name) + Tag(width, height)
  {
    var b, t, e := BaseName(name), Tag(width, height), Extension(name);
    if ExtensionMatch(name).Some? {
      SplitRoundTrip(name);
    } else {
      assert e == ".jpg";
    }
    assert OutputName(name, width, height) == (b + t) + e;
    AppendedExtension(b + t, e);
  }

  /** Any text followed by an extension-shaped suffix matches at that
      suffix. */
  lemma AppendedExtension(front: string, e: string)
    requires |e| >= 2 && e[0] == '.' && forall j :: 0 < j < |e| ==> e[j] != '.'
    ensures ExtensionMatch(front + e) == Some(|front|)
    ensures BaseName(front + e) == front && Extension(front + e) == e
  {
    var out, p := front + e, |front|;
    assert ExtensionAt(out, p) by {
      forall j | p < j < |out| ensures out[j] != '.' {
        assert out[j] == e[j - p];
      }
    }
    var m := ExtensionMatch(out);
    MatchExistsIff(out);
    MatchIsUnique(out, m.value, p);
    assert out[..p] == front && out[p..] == e;
  }

  /** A name that is only an extension, such as ".bashrc", keeps it and
      gets an empty base name. */
  lemma HiddenFileName(name: string)
    requires |name| >= 2 && name[0] == '.' && '.' !in name[1..]
    ensures BaseName(name) == "" && Extension(name) == name
  {
    assert ExtensionAt(name, 0) by {
      forall j | 0 < j < |name| ensures name[j] != '.' {
        assert name[j] == name[1..][j - 1];
      }
    }
    MatchIsUnique(name, ExtensionMatch(name).value, 0);
  }

  /** A name ending in a point has no extension: ".jpg" is appended after
      the point. */
  lemma TrailingPointName(name: string, width: int, height: int)
    requires |name| >= 1 && name[|name| - 1] == '.'
    ensures OutputName(name, width, height) == name + Tag(width, height) + ".jpg"
  {
    MatchExistsIff(name);
  }
}
