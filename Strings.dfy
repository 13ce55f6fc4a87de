/**
 * The .NET string operations the transformations use, as functions on `seq<char>`:
 * upper-casing (ASCII letters only), Trim (the characters Char.IsWhiteSpace accepts),
 * Split with StringSplitOptions.RemoveEmptyEntries, and concatenation of parts.
 */
module Strings {

  /** The characters Char.IsWhiteSpace accepts: the Unicode space, line and paragraph
      separators, and the control characters U+0009..U+000D and U+0085. */
  predicate IsWhiteSpace(c: char) {
    || c == ' ' || ('\t' <= c <= '\r') || c == '\U{0085}' || c == '\U{00A0}' || c == '\U{1680}'
    || ('\U{2000}' <= c <= '\U{200A}') || c == '\U{2028}' || c == '\U{2029}' || c == '\U{202F}'
    || c == '\U{205F}' || c == '\U{3000}'
  }

  predicate IsLower(c: char) { 'a' <= c <= 'z' }

  /** No ASCII lower-case letter occurs in `s`. */
  predicate IsUpperCase(s: string) {
    forall i :: 0 <= i < |s| ==> !IsLower(s[i])
  }

  /** Neither the first nor the last character of `s` is white space. */
  predicate IsTrimmed(s: string) {
    s == [] || (!IsWhiteSpace(s[0]) && !IsWhiteSpace(s[|s| - 1]))
  }

  function UpperChar(c: char): char {
    if IsLower(c) then (c as int - 32) as char else c
  }

  /** String.ToUpper, restricted to the ASCII letters. */
  function ToUpper(s: string): (r: string)
    ensures |r| == |s|
    decreases |s|
  {
    if s == [] then [] else ToUpper(s[..|s| - 1]) + [UpperChar(s[|s| - 1])]
  }

  /** Upper-casing maps every character on its own and leaves no lower-case letter. */
  lemma {:induction false} ToUpperAt(s: string, i: nat)
    requires i < |s|
    ensures ToUpper(s)[i] == UpperChar(s[i]) && !IsLower(ToUpper(s)[i])
    decreases |s|
  {
    if i < |s| - 1 {
      ToUpperAt(s[..|s| - 1], i);
    }
  }

  lemma ToUpperIsUpperCase(s: string)
    ensures IsUpperCase(ToUpper(s))
  {
    forall i | 0 <= i < |s|
      ensures !IsLower(ToUpper(s)[i])
    {
      ToUpperAt(s, i);
    }
  }

  /** Upper-casing changes nothing in a string that is already upper case. */
  lemma {:induction false} ToUpperFixesUpperCase(s: string)
    requires IsUpperCase(s)
    ensures ToUpper(s) == s
    decreases |s|
  {
    if s != [] {
      var init := s[..|s| - 1];
      assert IsUpperCase(init) by {
        forall i | 0 <= i < |init|
          ensures !IsLower(init[i])
        {
          assert init[i] == s[i];
        }
      }
      ToUpperFixesUpperCase(init);
      assert s == init + [s[|s| - 1]];
    }
  }

  /** String.TrimStart(): drops the leading white space. */
  function TrimStart(s: string): (r: string)
    ensures |r| <= |s|
    decreases |s|
  {
    if s != [] && IsWhiteSpace(s[0]) then TrimStart(s[1..]) else s
  }

  /** TrimStart keeps a suffix, drops only white space, and stops at the first character
      that is not white space. */
  lemma {:induction false} TrimStartSpec(s: string)
    ensures TrimStart(s) == s[|s| - |TrimStart(s)|..]
    ensures forall i :: 0 <= i < |s| - |TrimStart(s)| ==> IsWhiteSpace(s[i])
    ensures TrimStart(s) == [] || !IsWhiteSpace(TrimStart(s)[0])
    decreases |s|
  {
    if s != [] && IsWhiteSpace(s[0]) {
      TrimStartSpec(s[1..]);
      var r := TrimStart(s);
      assert s[1..][|s| - 1 - |r|..] == s[|s| - |r|..];
      forall i | 0 <= i < |s| - |r|
        ensures IsWhiteSpace(s[i])
      {
        if i > 0 {
          assert s[i] == s[1..][i - 1];
        }
      }
    }
  }

  /** String.TrimEnd(): drops the trailing white space. */
  function TrimEnd(s: string): (r: string)
    ensures |r| <= |s|
    decreases |s|
  {
    if s != [] && IsWhiteSpace(s[|s| - 1]) then TrimEnd(s[..|s| - 1]) else s
  }

  /** TrimEnd keeps a prefix, drops only white space, and stops at the last character
      that is not white space. */
  lemma {:induction false} TrimEndSpec(s: string)
    ensures TrimEnd(s) == s[..|TrimEnd(s)|]
    ensures forall i :: |TrimEnd(s)| <= i < |s| ==> IsWhiteSpace(s[i])
    ensures TrimEnd(s) == [] || !IsWhiteSpace(TrimEnd(s)[|TrimEnd(s)| - 1])
    decreases |s|
  {
    if s != [] && IsWhiteSpace(s[|s| - 1]) {
      var init := s[..|s| - 1];
      TrimEndSpec(init);
      var r := TrimEnd(s);
      assert init[..|r|] == s[..|r|];
      forall i | |r| <= i < |s|
        ensures IsWhiteSpace(s[i])
      {
        if i < |s| - 1 {
          assert s[i] == init[i];
        }
      }
    }
  }

  /** String.Trim(): drops the leading and the trailing white space. */
  function Trim(s: string): string {
    TrimEnd(TrimStart(s))
  }

  /** Trim keeps a contiguous part of `s` with no white space at either end, and drops
      only white space around it. */
  lemma TrimSpec(s: string)
    ensures IsTrimmed(Trim(s)) && |Trim(s)| <= |s|
    ensures |s| - |TrimStart(s)| + |Trim(s)| <= |s|
    ensures Trim(s) == s[|s| - |TrimStart(s)|..|s| - |TrimStart(s)| + |Trim(s)|]
  {
    var t := TrimStart(s);
    var r := TrimEnd(t);
    TrimStartSpec(s);
    TrimEndSpec(t);
    assert r == [] || r[0] == t[0];
    var k := |s| - |t|;
    assert r == s[k..k + |r|];
  }

  /** Trimming a string that has no white space at either end changes nothing. */
  lemma TrimFixesTrimmed(s: string)
    requires IsTrimmed(s)
    ensures Trim(s) == s
  {
  }

  /** Trimming keeps a string upper case: it only removes characters. */
  lemma TrimKeepsUpperCase(s: string)
    requires IsUpperCase(s)
    ensures IsUpperCase(Trim(s))
  {
    TrimSpec(s);
    var r := Trim(s);
    var k := |s| - |TrimStart(s)|;
    forall i | 0 <= i < |r|
      ensures !IsLower(r[i])
    {
      assert r[i] == s[k + i];
    }
  }

  /** The index of the first `d` in `s`, or |s| when there is none. */
  function IndexOf(s: string, d: char): (k: nat)
    ensures k <= |s|
    ensures k < |s| ==> s[k] == d
    ensures forall i :: 0 <= i < k ==> s[i] != d
    decreases |s|
  {
    if s == [] then 0 else if s[0] == d then 0 else 1 + IndexOf(s[1..], d)
  }

  /** String.Split(new char[] { d }, StringSplitOptions.RemoveEmptyEntries): the maximal
      runs of characters other than `d`, left to right. */
  function Split(s: string, d: char): seq<string>
    decreases |s|
  {
    if s == [] then []
    else if s[0] == d then Split(s[1..], d)
    else
      var k := IndexOf(s, d);
      [s[..k]] + Split(s[k..], d)
  }

  /** Every part of a split is non-empty and free of the separator. */
  lemma {:induction false} SplitParts(s: string, d: char)
    ensures forall i :: 0 <= i < |Split(s, d)| ==> Split(s, d)[i] != [] && d !in Split(s, d)[i]
    decreases |s|
  {
    if s == [] {
    } else if s[0] == d {
      SplitParts(s[1..], d);
    } else {
      var k := IndexOf(s, d);
      SplitParts(s[k..], d);
      var parts := Split(s, d);
      forall i | 0 <= i < |parts|
        ensures parts[i] != [] && d !in parts[i]
      {
        if i == 0 {
          assert parts[0] == s[..k];
          assert forall j :: 0 <= j < k ==> s[..k][j] == s[j];
        } else {
          assert parts[i] == Split(s[k..], d)[i - 1];
        }
      }
    }
  }

  /** The characters of `s` other than `d`, in order. */
  function Without(s: string, d: char): string
    decreases |s|
  {
    if s == [] then [] else (if s[0] == d then [] else [s[0]]) + Without(s[1..], d)
  }

  /** The parts concatenated with nothing between them. */
  function Concat(parts: seq<string>): string
    decreases |parts|
  {
    if parts == [] then [] else Concat(parts[..|parts| - 1]) + parts[|parts| - 1]
  }

  /** The parts with `d` between consecutive ones (String.Join). */
  function Join(parts: seq<string>, d: char): string
    decreases |parts|
  {
    if parts == [] then []
    else if |parts| == 1 then parts[0]
    else parts[0] + [d] + Join(parts[1..], d)
  }

  /** All parts but the last, concatenated; nothing when there are no parts. */
  function ConcatAllButLast(parts: seq<string>): string {
    if parts == [] then [] else Concat(parts[..|parts| - 1])
  }

  lemma ConcatAppend(parts: seq<string>, p: string)
    ensures Concat(parts + [p]) == Concat(parts) + p
  {
    assert (parts + [p])[..|parts|] == parts;
  }

  lemma {:induction false} WithoutAppend(s: string, t: string, d: char)
    ensures Without(s + t, d) == Without(s, d) + Without(t, d)
    decreases |s|
  {
    if s == [] {
      assert s + t == t;
    } else {
      assert (s + t)[1..] == s[1..] + t;
      WithoutAppend(s[1..], t, d);
    }
  }

  /** Splitting loses exactly the separators: concatenating the parts gives back `s`
      with every `d` removed. */
  lemma {:induction false} ConcatSplit(s: string, d: char)
    ensures Concat(Split(s, d)) == Without(s, d)
    decreases |s|
  {
    if s == [] {
    } else if s[0] == d {
      ConcatSplit(s[1..], d);
    } else {
      var k := IndexOf(s, d);
      var rest := Split(s[k..], d);
      ConcatSplit(s[k..], d);
      ConcatPrepend(s[..k], rest);
      assert s == s[..k] + s[k..];
      WithoutAppend(s[..k], s[k..], d);
      WithoutNone(s[..k], d);
    }
  }

  lemma {:induction false} ConcatPrepend(p: string, parts: seq<string>)
    ensures Concat([p] + parts) == p + Concat(parts)
    decreases |parts|
  {
    if parts == [] {
      assert [p] + parts == [] + [p];
      ConcatAppend([], p);
    } else {
      var init := parts[..|parts| - 1];
      var last := parts[|parts| - 1];
      assert [p] + parts == ([p] + init) + [last];
      ConcatAppend([p] + init, last);
      ConcatPrepend(p, init);
      ConcatAppend(init, last);
      assert parts == init + [last];
    }
  }

  lemma {:induction false} WithoutNone(s: string, d: char)
    requires d !in s
    ensures Without(s, d) == s
    decreases |s|
  {
    if s != [] {
      WithoutNone(s[1..], d);
      assert s == [s[0]] + s[1..];
    }
  }

  /** Split undoes Join: parts that are non-empty and free of the separator come back
      unchanged from splitting their join. */
  lemma {:induction false} SplitJoin(parts: seq<string>, d: char)
    requires forall i :: 0 <= i < |parts| ==> parts[i] != [] && d !in parts[i]
    ensures Split(Join(parts, d), d) == parts
    decreases |parts|
  {
    if parts == [] {
    } else {
      var p := parts[0];
      var s := Join(parts, d);
      if |parts| == 1 {
        IndexOfAbsent(p, [], d);
        assert s[..|p|] == p;
        assert s[|p|..] == [];
      } else {
        var tail := Join(parts[1..], d);
        assert s == p + ([d] + tail);
        IndexOfAbsent(p, [d] + tail, d);
        assert s[..|p|] == p;
        assert s[|p|..] == [d] + tail;
        assert ([d] + tail)[1..] == tail;
        SplitJoin(parts[1..], d);
        assert parts == [p] + parts[1..];
      }
    }
  }

  lemma IndexOfAbsent(p: string, t: string, d: char)
    requires p != [] && d !in p
    requires t == [] || t[0] == d
    ensures IndexOf(p + t, d) == |p|
  {
    if t != [] {
      assert (p + t)[|p|] == d;
    }
  }

  /** A separator-free string that is not empty splits into itself alone. */
  lemma SplitWithoutSeparator(s: string, d: char)
    requires d !in s
    ensures s == [] ==> Split(s, d) == []
    ensures s != [] ==> Split(s, d) == [s]
  {
    if s != [] {
      assert s == s + [];
      IndexOfAbsent(s, [], d);
    }
  }

  /** Concatenated parts contain `d` exactly as often as the parts do together; parts
      free of `d` concatenate to a `d`-free string. */
  lemma {:induction false} ConcatAvoids(parts: seq<string>, d: char)
    requires forall i :: 0 <= i < |parts| ==> d !in parts[i]
    ensures d !in Concat(parts)
    decreases |parts|
  {
    if parts != [] {
      ConcatAvoids(parts[..|parts| - 1], d);
    }
  }
  /** A file name without its extension the way the flatteners derive it: the non-empty
      `.`-separated segments but the last, concatenated. */
  function FileStem(name: string): string {
    ConcatAllButLast(Split(name, '.'))
  }

  /** The stem never contains '.', and a name without '.' has an empty stem. */
  lemma FileStemSpec(name: string)
    ensures '.' !in FileStem(name)
    ensures '.' !in name ==> FileStem(name) == []
  {
    var parts := Split(name, '.');
    SplitParts(name, '.');
    if parts != [] {
      var init := parts[..|parts| - 1];
      assert forall i :: 0 <= i < |init| ==> init[i] == parts[i];
      ConcatAvoids(init, '.');
    }
    if '.' !in name {
      SplitWithoutSeparator(name, '.');
    }
  }

  /** A stem, then a suffix without '.', then '.' and an extension without '.', has exactly
      one '.'. */
  lemma OneDot(name: string, suffix: string, extension: string)
    requires '.' !in suffix && '.' !in extension
    ensures multiset(FileStem(name) + suffix + "." + extension)['.'] == 1
  {
    FileStemSpec(name);
    var stem := FileStem(name);
    assert multiset(stem + suffix + "." + extension)
        == multiset(stem) + multiset(suffix) + multiset(".") + multiset(extension);
  }

  /** A stem followed by `tail` ends with `tail`; a name without '.' gives `tail` alone. */
  lemma StemThenTail(name: string, tail: string)
    ensures var r := FileStem(name) + tail; |r| >= |tail| && r[|r| - |tail|..] == tail
    ensures '.' !in name ==> FileStem(name) + tail == tail
  {
    FileStemSpec(name);
    var stem := FileStem(name);
    assert (stem + tail)[|stem|..] == tail;
    if '.' !in name {
      assert stem + tail == [] + tail;
    }
  }
}
