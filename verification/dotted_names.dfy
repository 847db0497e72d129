/**
 Dotted field names. A field stored inside a nested dataset carries its fully
 qualified name (`parent.child.leaf`); reading it back keeps only the last
 component, the way `name.split(".")[-1]` does.
 */
module DottedNames {

  const Dot: char := '.'

  predicate DotFree(s: string) {
    Dot !in s
  }

  predicate IsSuffix(t: string, s: string) {
    |t| <= |s| && s[|s| - |t|..] == t
  }

  /** The components of `s` between dots, as `str.split(".")` returns them:
      never empty, and `""` splits to `[""]`. */
  function SplitDots(s: string): (parts: seq<string>)
    ensures |parts| >= 1
    ensures forall i :: 0 <= i < |parts| ==> DotFree(parts[i])
    decreases |s|
  {
    if |s| == 0 then [""]
    else
      var init := SplitDots(s[..|s| - 1]);
      var c := s[|s| - 1];
      if c == Dot then init + [""]
      else init[..|init| - 1] + [init[|init| - 1] + [c]]
  }

  /** The inverse of `SplitDots`: the components glued back with dots. */
  function JoinDots(parts: seq<string>): string
    requires |parts| >= 1
    decreases |parts|
  {
    if |parts| == 1 then parts[0]
    else JoinDots(parts[..|parts| - 1]) + [Dot] + parts[|parts| - 1]
  }

  /** Joining after a new empty last component adds a trailing dot. */
  lemma JoinAppendEmpty(parts: seq<string>)
    requires |parts| >= 1
    ensures JoinDots(parts + [""]) == JoinDots(parts) + [Dot]
  {
    var ps := parts + [""];
    assert ps[..|ps| - 1] == parts;
  }

  /** Extending the last component by one character extends the joined name by it. */
  lemma {:induction false} JoinExtendLast(parts: seq<string>, c: char)
    requires |parts| >= 1
    ensures JoinDots(parts[..|parts| - 1] + [parts[|parts| - 1] + [c]]) == JoinDots(parts) + [c]
  {
    var k := |parts|;
    var init := parts[..k - 1];
    var last := parts[k - 1];
    var ps := init + [last + [c]];
    if k > 1 {
      assert ps[..k - 1] == init;
      var head := JoinDots(init) + [Dot];
      assert JoinDots(ps) == head + (last + [c]);
      assert JoinDots(parts) == head + last;
      assert head + (last + [c]) == (head + last) + [c];
    }
  }

  /** Splitting and then joining gives back the original name. */
  lemma {:induction false} JoinSplit(s: string)
    ensures JoinDots(SplitDots(s)) == s
    decreases |s|
  {
    if |s| > 0 {
      var prefix := s[..|s| - 1];
      var c := s[|s| - 1];
      JoinSplit(prefix);
      assert s == prefix + [c];
      if c == Dot {
        JoinAppendEmpty(SplitDots(prefix));
      } else {
        JoinExtendLast(SplitDots(prefix), c);
      }
    }
  }

  /** A name with no dot is a single component. */
  lemma {:induction false} SplitDotFree(t: string)
    requires DotFree(t)
    ensures SplitDots(t) == [t]
    decreases |t|
  {
    if |t| > 0 {
      var prefix := t[..|t| - 1];
      assert DotFree(prefix) by {
        forall i | 0 <= i < |prefix| ensures prefix[i] != Dot {
          assert prefix[i] == t[i];
        }
      }
      SplitDotFree(prefix);
      assert t == prefix + [t[|t| - 1]];
    }
  }

  /** Appending a dot and a dot-free component appends exactly that component. */
  lemma {:induction false} SplitAppend(s: string, t: string)
    requires DotFree(t)
    ensures SplitDots(s + [Dot] + t) == SplitDots(s) + [t]
    decreases |t|
  {
    var u := s + [Dot] + t;
    if |t| == 0 {
      assert u[..|u| - 1] == s;
    } else {
      var t' := t[..|t| - 1];
      var c := t[|t| - 1];
      assert c in t;
      assert DotFree(t') by {
        forall i | 0 <= i < |t'| ensures t'[i] != Dot {
          assert t'[i] == t[i];
        }
      }
      SplitAppend(s, t');
      assert u[..|u| - 1] == s + [Dot] + t';
      assert t' + [c] == t;
      var init := SplitDots(s) + [t'];
      assert init[..|init| - 1] == SplitDots(s);
    }
  }

  /** Joining dot-free components and splitting again gives back the components. */
  lemma {:induction false} SplitJoin(parts: seq<string>)
    requires |parts| >= 1
    requires forall i :: 0 <= i < |parts| ==> DotFree(parts[i])
    ensures SplitDots(JoinDots(parts)) == parts
    decreases |parts|
  {
    if |parts| == 1 {
      SplitDotFree(parts[0]);
    } else {
      var init := parts[..|parts| - 1];
      SplitJoin(init);
      SplitAppend(JoinDots(init), parts[|parts| - 1]);
      assert init + [parts[|parts| - 1]] == parts;
    }
  }

  /** The last component of a joined name is a suffix of it, preceded by a dot
      whenever there is more than one component. */
  lemma {:induction false} JoinEndsWithLast(parts: seq<string>)
    requires |parts| >= 1
    ensures IsSuffix(parts[|parts| - 1], JoinDots(parts))
    ensures |parts| > 1 ==>
      var j := JoinDots(parts);
      |parts[|parts| - 1]| < |j| && j[|j| - |parts[|parts| - 1]| - 1] == Dot
  {
    if |parts| > 1 {
      var last := parts[|parts| - 1];
      var j := JoinDots(parts);
      var head := JoinDots(parts[..|parts| - 1]) + [Dot];
      assert j == head + last;
      assert j[|j| - |last|..] == last;
      assert j[|j| - |last| - 1] == head[|head| - 1];
    }
  }

  /** The name a field gets when read back: the last dotted component of the
      stored name. It contains no dot, it ends the stored name, and it is
      either the whole stored name or follows its last dot. */
  function ReadName(stored: string): (name: string)
    ensures DotFree(name)
    ensures IsSuffix(name, stored)
    ensures name == stored || (|name| < |stored| && stored[|stored| - |name| - 1] == Dot)
  {
    var parts := SplitDots(stored);
    JoinSplit(stored);
    JoinEndsWithLast(parts);
    parts[|parts| - 1]
  }

  /** Reading back a qualified name recovers its leaf; a bare name is kept. */
  lemma ReadNameOfQualified(prefix: string, leaf: string)
    requires DotFree(leaf)
    ensures ReadName(prefix + [Dot] + leaf) == leaf
    ensures ReadName(leaf) == leaf
  {
    SplitAppend(prefix, leaf);
    SplitDotFree(leaf);
  }
}
