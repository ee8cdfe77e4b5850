/** The string and path primitives the loaders, the ingestion command and the
    query endpoint rely on: Python's `str.strip`, `str.join`, `str.lower`,
    `pathlib.PurePath.name`/`suffix` and `str(int)`. */
module Text {

  /** Python's `str.isspace` for one character. */
  predicate IsSpace(c: char)
  {
    c == ' ' || ('\t' <= c <= '\r') || ('\U{1C}' <= c <= '\U{1F}')
    || c == '\U{85}' || c == '\U{A0}' || c == '\U{1680}'
    || ('\U{2000}' <= c <= '\U{200A}') || c == '\U{2028}' || c == '\U{2029}'
    || c == '\U{202F}' || c == '\U{205F}' || c == '\U{3000}'
  }

  predicate AllSpace(s: string)
  {
    forall k :: 0 <= k < |s| ==> IsSpace(s[k])
  }

  /** `s.lstrip()`. */
  function TrimStart(s: string): (r: string)
    ensures |r| <= |s|
  {
    if |s| == 0 || !IsSpace(s[0]) then s else TrimStart(s[1..])
  }

  /** `lstrip` keeps a suffix of its input, drops only whitespace, and what it
      keeps does not start with whitespace. */
  lemma {:induction false} TrimStartMeaning(s: string)
    ensures var r := TrimStart(s);
      r == s[|s| - |r|..] && AllSpace(s[..|s| - |r|]) && (r == [] || !IsSpace(r[0]))
    decreases |s|
  {
    if |s| > 0 && IsSpace(s[0]) {
      var r := TrimStart(s[1..]);
      TrimStartMeaning(s[1..]);
      var n := |s| - |r|;
      assert s[1..][|s| - 1 - |r|..] == s[n..];
      assert AllSpace(s[1..][..n - 1]);
      forall k | 0 <= k < n ensures IsSpace(s[..n][k]) {
        if k > 0 {
          assert s[..n][k] == s[1..][..n - 1][k - 1];
          assert IsSpace(s[1..][..n - 1][k - 1]);
        }
      }
    }
  }

  /** `s.rstrip()`. */
  function TrimEnd(s: string): (r: string)
    ensures |r| <= |s|
  {
    if |s| == 0 || !IsSpace(s[|s| - 1]) then s else TrimEnd(s[..|s| - 1])
  }

  /** `rstrip` keeps a prefix of its input, drops only whitespace, and what it
      keeps does not end with whitespace. */
  lemma {:induction false} TrimEndMeaning(s: string)
    ensures var r := TrimEnd(s);
      r == s[..|r|] && AllSpace(s[|r|..]) && (r == [] || !IsSpace(r[|r| - 1]))
    decreases |s|
  {
    if |s| > 0 && IsSpace(s[|s| - 1]) {
      var init := s[..|s| - 1];
      var r := TrimEnd(init);
      TrimEndMeaning(init);
      assert init[..|r|] == s[..|r|];
      forall k | |r| <= k < |s| ensures IsSpace(s[k]) {
        if k < |s| - 1 { assert s[k] == init[|r|..][k - |r|]; }
      }
      assert forall k :: 0 <= k < |s[|r|..]| ==> s[|r|..][k] == s[|r| + k];
    }
  }

  /** `s.strip()`. */
  function Strip(s: string): (r: string)
  {
    TrimEnd(TrimStart(s))
  }

  /** What `strip` keeps is a slice of its input framed by whitespace only. */
  lemma StripSlice(s: string)
    ensures var r := Strip(s);
      exists i, j :: 0 <= i <= j <= |s| && r == s[i..j] && AllSpace(s[..i]) && AllSpace(s[j..])
  {
    var t := TrimStart(s);
    var r := TrimEnd(t);
    TrimStartMeaning(s);
    TrimEndMeaning(t);
    var i := |s| - |t|;
    var j := i + |r|;
    assert r == s[i..j];
    assert s[j..] == t[|r|..];
    assert AllSpace(s[j..]);
  }

  /** What `strip` keeps neither starts nor ends with whitespace. */
  lemma StripEdges(s: string)
    ensures Strip(s) == [] || (!IsSpace(Strip(s)[0]) && !IsSpace(Strip(s)[|Strip(s)| - 1]))
  {
    var t := TrimStart(s);
    var r := TrimEnd(t);
    TrimStartMeaning(s);
    TrimEndMeaning(t);
    if r != [] {
      assert r[0] == t[0];
    }
  }

  /** A string with no non-whitespace character strips to the empty string,
      and one with a non-whitespace character does not. */
  lemma StripEmptyIff(s: string)
    ensures Strip(s) == [] <==> AllSpace(s)
  {
    var t := TrimStart(s);
    TrimStartMeaning(s);
    TrimEndMeaning(t);
    if t == [] {
      assert s[..|s|] == s;
    } else {
      assert s[|s| - |t|] == t[0];
    }
  }

  /** `sep.join(parts)`. */
  function Join(sep: string, parts: seq<string>): (r: string)
    decreases |parts|
  {
    if |parts| == 0 then ""
    else if |parts| == 1 then parts[0]
    else Join(sep, parts[..|parts| - 1]) + sep + parts[|parts| - 1]
  }

  /** Joining non-empty parts starts with the first part's first character and
      ends with the last part's last character. */
  lemma {:induction false} JoinEnds(sep: string, parts: seq<string>)
    requires |parts| > 0
    requires forall k :: 0 <= k < |parts| ==> parts[k] != []
    ensures |Join(sep, parts)| >= |parts[0]|
    ensures Join(sep, parts)[0] == parts[0][0]
    ensures Join(sep, parts)[|Join(sep, parts)| - 1] == parts[|parts| - 1][|parts[|parts| - 1]| - 1]
  {
    if |parts| > 1 {
      var init := parts[..|parts| - 1];
      JoinEnds(sep, init);
      assert init[0] == parts[0];
    }
  }

  /** Where part `j` starts in `sep.join(parts)`: after every earlier part and
      its separator. `Offset(sep, parts, |parts|)` is the joined length plus
      one separator. */
  function Offset(sep: string, parts: seq<string>, j: nat): nat
    requires j <= |parts|
  {
    if j == 0 then 0 else Offset(sep, parts, j - 1) + |parts[j - 1]| + |sep|
  }

  /** Offsets depend only on the parts before them. */
  lemma {:induction false} OffsetPrefix(sep: string, parts: seq<string>, n: nat, j: nat)
    requires j <= n <= |parts|
    ensures Offset(sep, parts[..n], j) == Offset(sep, parts, j)
  {
    if j > 0 {
      OffsetPrefix(sep, parts, n, j - 1);
      assert parts[..n][j - 1] == parts[j - 1];
    }
  }

  /** A join is as long as its parts plus one separator between each two. */
  lemma {:induction false} JoinLength(sep: string, parts: seq<string>)
    requires |parts| > 0
    ensures |Join(sep, parts)| + |sep| == Offset(sep, parts, |parts|)
    decreases |parts|
  {
    if |parts| > 1 {
      var n := |parts|;
      JoinLength(sep, parts[..n - 1]);
      OffsetPrefix(sep, parts, n - 1, n - 1);
    }
  }

  /** `part` sits in `s` at position `o`, right after `sep` when `separated`. */
  predicate PlacedAt(s: string, part: string, o: nat, sep: string, separated: bool)
  {
    o + |part| <= |s| && s[o..o + |part|] == part
    && (separated ==> |sep| <= o && s[o - |sep|..o] == sep)
  }

  /** Appending after a join keeps a part, and the separator before it, in place. */
  lemma LayoutKept(head: string, sep: string, last: string, o: nat, part: string, separated: bool)
    requires PlacedAt(head, part, o, sep, separated)
    ensures PlacedAt(head + sep + last, part, o, sep, separated)
  {
    var all := head + sep + last;
    assert all[o..o + |part|] == head[o..o + |part|];
    if separated {
      assert all[o - |sep|..o] == head[o - |sep|..o];
    }
  }

  /** The layout of `sep.join(parts)`: part `j` sits at `Offset(sep, parts, j)`,
      and a separator sits just before every part but the first. With
      `JoinLength` this accounts for every character of the join. */
  lemma {:induction false} JoinLayoutAt(sep: string, parts: seq<string>, j: nat)
    requires j < |parts|
    ensures PlacedAt(Join(sep, parts), parts[j], Offset(sep, parts, j), sep, j > 0)
    decreases |parts|
  {
    var n := |parts|;
    if n == 1 {
      assert Join(sep, parts) == parts[0] == parts[0][0..|parts[0]|];
    } else if j < n - 1 {
      JoinLayoutAt(sep, parts[..n - 1], j);
      JoinLayoutEarlier(sep, parts, j);
    } else {
      JoinLayoutLast(sep, parts);
    }
  }

  /** A part before the last keeps its place once the last part is joined on. */
  lemma JoinLayoutEarlier(sep: string, parts: seq<string>, j: nat)
    requires 1 < |parts| && j < |parts| - 1
    requires PlacedAt(Join(sep, parts[..|parts| - 1]), parts[..|parts| - 1][j],
                      Offset(sep, parts[..|parts| - 1], j), sep, j > 0)
    ensures PlacedAt(Join(sep, parts), parts[j], Offset(sep, parts, j), sep, j > 0)
  {
    var n := |parts|;
    var init := parts[..n - 1];
    assert Join(sep, parts) == Join(sep, init) + sep + parts[n - 1];
    OffsetPrefix(sep, parts, n - 1, j);
    assert init[j] == parts[j];
    LayoutKept(Join(sep, init), sep, parts[n - 1], Offset(sep, parts, j), parts[j], j > 0);
  }

  /** The last part ends the join, right after a separator. */
  lemma JoinLayoutLast(sep: string, parts: seq<string>)
    requires |parts| > 1
    ensures PlacedAt(Join(sep, parts), parts[|parts| - 1], Offset(sep, parts, |parts| - 1), sep, true)
    ensures Offset(sep, parts, |parts| - 1) + |parts[|parts| - 1]| == |Join(sep, parts)|
  {
    var n := |parts|;
    var init := parts[..n - 1];
    var head := Join(sep, init);
    assert Join(sep, parts) == head + sep + parts[n - 1];
    JoinLength(sep, init);
    OffsetPrefix(sep, parts, n - 1, n - 1);
    assert (head + sep + parts[n - 1])[|head| + |sep|..] == parts[n - 1];
    assert (head + sep + parts[n - 1])[|head|..|head| + |sep|] == sep;
  }

  /** The ASCII case mapping of `str.lower`. */
  function LowerChar(c: char): (d: char)
  {
    if 'A' <= c <= 'Z' then (c as int + 32) as char else c
  }

  /** `s.lower()`. */
  function Lower(s: string): (r: string)
    ensures |r| == |s|
    ensures forall k :: 0 <= k < |s| ==> r[k] == LowerChar(s[k])
  {
    seq(|s|, k requires 0 <= k < |s| => LowerChar(s[k]))
  }

  /** The index of the last occurrence of `c` in `s`, or -1 (`str.rfind`). */
  function LastIndexOf(s: string, c: char): (i: int)
    ensures -1 <= i < |s|
    ensures i >= 0 ==> s[i] == c
    ensures forall k :: i < k < |s| ==> s[k] != c
  {
    if |s| == 0 then -1
    else if s[|s| - 1] == c then |s| - 1
    else LastIndexOf(s[..|s| - 1], c)
  }

  /** The path with its trailing separators removed, as `pathlib` normalises it. */
  function TrimSlashes(p: string): (r: string)
    ensures |r| <= |p| && r == p[..|r|]
    ensures r == [] || r[|r| - 1] != '/'
  {
    if |p| > 0 && p[|p| - 1] == '/' then TrimSlashes(p[..|p| - 1]) else p
  }

  /** Only separators are removed. */
  lemma {:induction false} TrimSlashesMeaning(p: string)
    ensures forall k :: |TrimSlashes(p)| <= k < |p| ==> p[k] == '/'
    decreases |p|
  {
    if |p| > 0 && p[|p| - 1] == '/' {
      TrimSlashesMeaning(p[..|p| - 1]);
    }
  }

  /** `PurePath(p).name`: the final path component. */
  function Name(p: string): (r: string)
    ensures '/' !in r
  {
    var t := TrimSlashes(p);
    t[LastIndexOf(t, '/') + 1..]
  }

  /** The name is the final component: it ends the trimmed path and is the
      whole of it or follows a separator. */
  lemma NameMeaning(p: string)
    ensures var t, r := TrimSlashes(p), Name(p);
      EndsWith(t, r) && (|r| == |t| || t[|t| - |r| - 1] == '/')
  {
    var t := TrimSlashes(p);
    var i := LastIndexOf(t, '/');
    assert Name(p) == t[i + 1..];
    assert |t| - |Name(p)| == i + 1;
  }

  /** `PurePath(p).suffix`: from the last dot of the name, provided the dot
      neither starts nor ends the name; otherwise empty. */
  function Suffix(p: string): (r: string)
  {
    NameSuffix(Name(p))
  }

  /** The suffix of a final path component. */
  function NameSuffix(name: string): (r: string)
  {
    var i := LastIndexOf(name, '.');
    if 0 < i < |name| - 1 then name[i..] else ""
  }

  /** A suffix is empty or a dot followed by at least one character that is
      not a dot, and it ends the name. */
  lemma SuffixShape(p: string)
    ensures var r := Suffix(p);
      r == "" || (|r| >= 2 && r[0] == '.' && '.' !in r[1..] && |r| < |Name(p)|
                  && Name(p)[|Name(p)| - |r|..] == r)
  {
    var name := Name(p);
    var i := LastIndexOf(name, '.');
    if 0 < i < |name| - 1 {
      var r := name[i..];
      forall k | 1 <= k < |r| ensures r[k] != '.' { assert r[k] == name[i + k]; }
    }
  }

  /** The converse of `SuffixShape`: a name longer than an extension (a dot
      and at least one non-dot character) that ends with it has that suffix. */
  lemma NameSuffixOf(name: string, ext: string)
    requires |ext| >= 2 && ext[0] == '.' && '.' !in ext[1..]
    requires |name| > |ext| && EndsWith(name, ext)
    ensures NameSuffix(name) == ext
  {
    var i := |name| - |ext|;
    assert name[i] == ext[0];
    forall k | i < k < |name| ensures name[k] != '.' {
      assert name[k] == ext[1..][k - i - 1];
    }
  }

  /** A name that is nothing but such an extension has no suffix. */
  lemma BareExtensionNoSuffix(ext: string)
    requires |ext| >= 2 && ext[0] == '.' && '.' !in ext[1..]
    ensures NameSuffix(ext) == ""
  {
    forall k | 0 < k < |ext| ensures ext[k] != '.' {
      assert ext[k] == ext[1..][k - 1];
    }
  }

  /** Lower-casing works character by character, so it commutes with slicing. */
  lemma LowerSlice(s: string, i: nat)
    requires i <= |s|
    ensures Lower(s)[i..] == Lower(s[i..])
  {
    var a, b := Lower(s)[i..], Lower(s[i..]);
    assert |a| == |b|;
    forall k | 0 <= k < |a| ensures a[k] == b[k] {
      assert a[k] == Lower(s)[i + k] == LowerChar(s[i + k]);
    }
  }

  /** Lower-casing touches no `/`, so it commutes with taking the name. */
  lemma NameOfLower(p: string)
    ensures Name(Lower(p)) == Lower(Name(p))
  {
    TrimSlashesOfLower(p);
    var t := TrimSlashes(p);
    LastIndexOfLower(t, '/');
    LowerSlice(t, LastIndexOf(t, '/') + 1);
  }

  /** Lower-casing touches neither `/` nor `.`, so it commutes with taking the
      suffix: the suffix of the lower-cased path is the lower-cased suffix. */
  lemma SuffixOfLower(p: string)
    ensures Suffix(Lower(p)) == Lower(Suffix(p))
  {
    NameOfLower(p);
    NameSuffixOfLower(Name(p));
  }

  lemma NameSuffixOfLower(n: string)
    ensures NameSuffix(Lower(n)) == Lower(NameSuffix(n))
  {
    LastIndexOfLower(n, '.');
    var i := LastIndexOf(n, '.');
    if 0 < i < |n| - 1 {
      LowerSlice(n, i);
    } else {
      assert Lower("") == "";
    }
  }

  lemma {:induction false} TrimSlashesOfLower(p: string)
    ensures TrimSlashes(Lower(p)) == Lower(TrimSlashes(p))
    decreases |p|
  {
    var lp := Lower(p);
    if |p| > 0 && p[|p| - 1] == '/' {
      assert lp[..|lp| - 1] == Lower(p[..|p| - 1]);
      TrimSlashesOfLower(p[..|p| - 1]);
    }
  }

  lemma LastIndexOfLower(s: string, c: char)
    requires !('A' <= c <= 'Z') && !('a' <= c <= 'z')
    ensures LastIndexOf(Lower(s), c) == LastIndexOf(s, c)
  {
  }

  /** Whether `s` ends with `t` (the name test of a `*.ext` glob). */
  predicate EndsWith(s: string, t: string)
  {
    |t| <= |s| && s[|s| - |t|..] == t
  }

  /** `str(n)` for a natural number: its decimal digits. */
  function NatToString(n: nat): (r: string)
    ensures |r| >= 1
    ensures forall k :: 0 <= k < |r| ==> '0' <= r[k] <= '9'
  {
    if n < 10 then [('0' as int + n) as char]
    else NatToString(n / 10) + [('0' as int + n % 10) as char]
  }

  /** The number a string of decimal digits denotes. */
  function DecValue(r: string): int
    decreases |r|
  {
    if |r| == 0 then 0 else DecValue(r[..|r| - 1]) * 10 + (r[|r| - 1] as int - '0' as int)
  }

  /** `str(n)` denotes `n` and has no leading zero. */
  lemma {:induction false} NatToStringValue(n: nat)
    ensures DecValue(NatToString(n)) == n
    ensures |NatToString(n)| > 1 ==> NatToString(n)[0] != '0'
    decreases n
  {
    if n >= 10 {
      var r, h := NatToString(n), NatToString(n / 10);
      NatToStringValue(n / 10);
      assert r[..|r| - 1] == h;
      assert r[0] == h[0];
    }
  }

  /** `str(i)` for an integer: a minus sign before the digits of a negative one. */
  function IntToString(i: int): (r: string)
    ensures r != []
    ensures (r[0] == '-') <==> i < 0
  {
    if i < 0 then "-" + NatToString(-i) else NatToString(i)
  }

  /** `str(i)` denotes `i`: the digits after the minus sign of a negative
      integer denote its absolute value, and neither form has a leading zero. */
  lemma IntToStringValue(i: int)
    ensures i >= 0 ==> DecValue(IntToString(i)) == i
    ensures i >= 0 && |IntToString(i)| > 1 ==> IntToString(i)[0] != '0'
    ensures i < 0 ==> DecValue(IntToString(i)[1..]) == -i
    ensures i < 0 && |IntToString(i)| > 2 ==> IntToString(i)[1] != '0'
  {
    if i < 0 {
      var d := NatToString(-i);
      NatToStringValue(-i);
      assert IntToString(i)[1..] == d;
    } else {
      NatToStringValue(i);
    }
  }
}
