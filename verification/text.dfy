/** The JavaScript string operations the widget relies on: `toLowerCase`
    (restricted to ASCII letters), `includes`, `split` on one character,
    `Array.prototype.join` and `trim`. */
module Text {

  predicate IsUpper(c: char) {
    'A' <= c <= 'Z'
  }

  /** `toLowerCase` on one character: ASCII capitals become small letters,
      every other character is left alone. */
  function LowerChar(c: char): (r: char)
    ensures !IsUpper(r)
    ensures !IsUpper(c) ==> r == c
    ensures IsUpper(c) ==> 'a' <= r <= 'z'
    ensures IsUpper(c) ==> r as int - c as int == 'a' as int - 'A' as int
  {
    if IsUpper(c) then (c as int - 'A' as int + 'a' as int) as char else c
  }

  /** `s.toLowerCase()`, character by character. */
  function Lower(s: string): (r: string)
    ensures |r| == |s|
    ensures forall i :: 0 <= i < |s| ==> r[i] == LowerChar(s[i])
    decreases |s|
  {
    if s == [] then [] else [LowerChar(s[0])] + Lower(s[1..])
  }

  /** Lowering an already lowered string changes nothing. */
  lemma LowerIdempotent(s: string)
    ensures Lower(Lower(s)) == Lower(s)
  {
    assert forall i :: 0 <= i < |s| ==> Lower(Lower(s))[i] == Lower(s)[i];
  }

  /** `s.includes(p)`: `p` occurs in `s` as one contiguous block. */
  predicate Contains(s: string, p: string)
    ensures Contains(s, p) ==> |p| <= |s|
    ensures p == [] ==> Contains(s, p)
    decreases |s|
  {
    (|p| <= |s| && s[..|p|] == p) || (s != [] && Contains(s[1..], p))
  }

  /** `p` occurs in `s` starting at position `i`. */
  ghost predicate OccursAt(s: string, p: string, i: int) {
    0 <= i && i + |p| <= |s| && s[i..i + |p|] == p
  }

  /** `Contains` agrees with the positional definition of a substring. */
  lemma {:induction false} ContainsIff(s: string, p: string)
    ensures Contains(s, p) <==> exists i :: OccursAt(s, p, i)
    decreases |s|
  {
    if |p| <= |s| && s[..|p|] == p {
      assert OccursAt(s, p, 0);
    } else if s == [] {
      forall i | 0 <= i
        ensures !OccursAt(s, p, i)
      {
      }
    } else {
      ContainsIff(s[1..], p);
      if Contains(s[1..], p) {
        var i :| OccursAt(s[1..], p, i);
        assert s[i + 1..i + 1 + |p|] == s[1..][i..i + |p|];
        assert OccursAt(s, p, i + 1);
      } else {
        forall i | 1 <= i
          ensures !OccursAt(s, p, i)
        {
          if i + |p| <= |s| {
            assert s[i..i + |p|] == s[1..][i - 1..i - 1 + |p|];
            assert !OccursAt(s[1..], p, i - 1);
          }
        }
        assert !OccursAt(s, p, 0);
      }
    }
  }

  /** Every string contains the empty string (`s.includes("")` is true). */
  lemma {:induction false} ContainsEmpty(s: string)
    ensures Contains(s, [])
  {
    assert s[..0] == [];
  }

  /** What occurs in a string is no longer than it, and each of its
      characters appears in the string. */
  lemma {:induction false} ContainsChars(s: string, p: string)
    requires Contains(s, p)
    ensures |p| <= |s|
    ensures forall j :: 0 <= j < |p| ==> p[j] in s
  {
    ContainsIff(s, p);
    var i :| OccursAt(s, p, i);
    forall j | 0 <= j < |p|
      ensures p[j] in s
    {
      assert p[j] == s[i..i + |p|][j] == s[i + j];
    }
  }

  /** A lowered text cannot contain a pattern that starts with a letter the
      text holds in neither case. */
  lemma LowerLacksLetter(s: string, p: string, upper: char)
    requires p != [] && 'a' <= p[0] <= 'z'
    requires upper as int == p[0] as int - ('a' as int - 'A' as int)
    requires p[0] !in s && upper !in s
    ensures !Contains(Lower(s), p)
  {
    forall i | 0 <= i < |s|
      ensures Lower(s)[i] != p[0]
    {
      assert s[i] in s;
      LowerCharAvoids(s[i], p[0], upper);
    }
    if Contains(Lower(s), p) {
      ContainsChars(Lower(s), p);
    }
  }

  /** A character that is neither a lower-case letter nor its upper-case
      form does not lower to that letter. */
  lemma LowerCharAvoids(c: char, x: char, upper: char)
    requires 'a' <= x <= 'z'
    requires upper as int == x as int - ('a' as int - 'A' as int)
    requires c != x && c != upper
    ensures LowerChar(c) != x
  {
  }

  /** A string found in `x` is found in any string `x` occurs in. */
  lemma {:induction false} ContainsTransitive(s: string, x: string, p: string)
    requires Contains(s, x) && Contains(x, p)
    ensures Contains(s, p)
  {
    ContainsIff(s, x);
    ContainsIff(x, p);
    var i :| OccursAt(s, x, i);
    var j :| OccursAt(x, p, j);
    forall k | 0 <= k < |p|
      ensures s[i + j + k] == p[k]
    {
      assert p[k] == x[j + k] == s[i + j + k];
    }
    assert s[i + j..i + j + |p|] == p;
    assert OccursAt(s, p, i + j);
    ContainsIff(s, p);
  }

  /** A part of a concatenation is contained in it. */
  lemma {:induction false} ContainsPart(a: string, x: string, b: string)
    ensures Contains(a + x + b, x)
  {
    assert (a + x + b)[|a|..|a| + |x|] == x;
    assert OccursAt(a + x + b, x, |a|);
    ContainsIff(a + x + b, x);
  }

  /** Lowering preserves containment. */
  lemma {:induction false} ContainsLower(s: string, x: string)
    requires Contains(s, x)
    ensures Contains(Lower(s), Lower(x))
  {
    ContainsIff(s, x);
    var i :| OccursAt(s, x, i);
    forall k | 0 <= k < |x|
      ensures Lower(s)[i + k] == Lower(x)[k]
    {
      assert x[k] == s[i + k];
    }
    assert Lower(s)[i..i + |x|] == Lower(x);
    assert OccursAt(Lower(s), Lower(x), i);
    ContainsIff(Lower(s), Lower(x));
  }

  /** `parts.join(sep)`: the parts in order with `sep` between neighbours;
      an empty array joins to the empty string. */
  function Join(parts: seq<string>, sep: string): (r: string)
    ensures parts == [] ==> r == []
    ensures parts != [] ==> |r| == TotalLength(parts) + (|parts| - 1) * |sep|
    decreases |parts|
  {
    if parts == [] then []
    else if |parts| == 1 then parts[0]
    else
      var rest := Join(parts[1..], sep);
      assert (|parts| - 1) * |sep| == |sep| + (|parts| - 2) * |sep|;
      parts[0] + sep + rest
  }

  /** The summed lengths of the parts. */
  function TotalLength(parts: seq<string>): nat
    decreases |parts|
  {
    if parts == [] then 0 else |parts[0]| + TotalLength(parts[1..])
  }

  /** Joining one more part appends the separator and that part. */
  lemma {:induction false} JoinSnoc(parts: seq<string>, x: string, sep: string)
    requires parts != []
    ensures Join(parts + [x], sep) == Join(parts, sep) + sep + x
    decreases |parts|
  {
    if |parts| > 1 {
      assert (parts + [x])[1..] == parts[1..] + [x];
      JoinSnoc(parts[1..], x, sep);
    }
  }

  /** Each part of a join occurs in the joined string. */
  lemma {:induction false} JoinContainsPart(parts: seq<string>, sep: string, k: int)
    requires 0 <= k < |parts|
    ensures Contains(Join(parts, sep), parts[k])
    decreases |parts|
  {
    if |parts| == 1 {
      assert Join(parts, sep) == [] + parts[0] + [];
      ContainsPart([], parts[0], []);
    } else if k == 0 {
      assert Join(parts, sep) == [] + parts[0] + (sep + Join(parts[1..], sep));
      ContainsPart([], parts[0], sep + Join(parts[1..], sep));
    } else {
      var rest := Join(parts[1..], sep);
      JoinContainsPart(parts[1..], sep, k - 1);
      ContainsPart(parts[0] + sep, rest, []);
      assert parts[0] + sep + rest + [] == Join(parts, sep);
      ContainsTransitive(Join(parts, sep), rest, parts[k]);
    }
  }

  /** A character found in no part and not in the separator is not in the
      join. */
  lemma {:induction false} JoinWithoutChar(parts: seq<string>, sep: string, c: char)
    requires c !in sep
    requires forall k :: 0 <= k < |parts| ==> c !in parts[k]
    ensures c !in Join(parts, sep)
    decreases |parts|
  {
    if |parts| > 1 {
      JoinWithoutChar(parts[1..], sep, c);
    }
  }

  /** `s.split(c)` for a one-character separator: the pieces between
      occurrences of `c`, at least one and none containing `c`; the first
      piece is the part of `s` before its first `c`. */
  function Split(s: string, c: char): (r: seq<string>)
    ensures |r| >= 1
    ensures forall k :: 0 <= k < |r| ==> c !in r[k]
    ensures |r[0]| <= |s| && r[0] == s[..|r[0]|]
    ensures |r[0]| < |s| ==> s[|r[0]|] == c
    decreases |s|
  {
    if s == [] then [[]]
    else
      var rest := Split(s[1..], c);
      if s[0] == c then [[]] + rest
      else [[s[0]] + rest[0]] + rest[1..]
  }

  /** Joining the pieces of a split with the separator gives back the
      original string. */
  lemma {:induction false} JoinSplit(s: string, c: char)
    ensures Join(Split(s, c), [c]) == s
    decreases |s|
  {
    if s != [] {
      var rest := Split(s[1..], c);
      JoinSplit(s[1..], c);
      if s[0] == c {
        assert Join([[]] + rest, [c]) == [] + [c] + Join(rest, [c]);
      } else if |rest| == 1 {
        assert Join(rest, [c]) == rest[0];
      } else {
        var r := Split(s, c);
        assert r[1..] == rest[1..];
        assert Join(rest, [c]) == rest[0] + [c] + Join(rest[1..], [c]);
        assert Join(r, [c]) == [s[0]] + rest[0] + [c] + Join(rest[1..], [c]);
      }
    }
  }

  /** A string without the separator splits into itself alone. */
  lemma {:induction false} SplitWithoutSeparator(x: string, c: char)
    requires c !in x
    ensures Split(x, c) == [x]
    decreases |x|
  {
    if x != [] {
      SplitWithoutSeparator(x[1..], c);
      assert [x[0]] + x[1..] == x;
    }
  }

  /** Splitting `x + c + y`, where `x` has no `c`, yields `x` first. */
  lemma {:induction false} SplitAtFirstSeparator(x: string, c: char, y: string)
    requires c !in x
    ensures Split(x + [c] + y, c) == [x] + Split(y, c)
    decreases |x|
  {
    var s := x + [c] + y;
    if x == [] {
      assert s[1..] == y;
    } else {
      assert s[1..] == x[1..] + [c] + y;
      SplitAtFirstSeparator(x[1..], c, y);
      assert [x[0]] + x[1..] == x;
    }
  }

  /** Splitting a join of separator-free parts gives back the parts. */
  lemma {:induction false} SplitJoin(parts: seq<string>, c: char)
    requires |parts| >= 1
    requires forall k :: 0 <= k < |parts| ==> c !in parts[k]
    ensures Split(Join(parts, [c]), c) == parts
    decreases |parts|
  {
    if |parts| == 1 {
      SplitWithoutSeparator(parts[0], c);
    } else {
      SplitJoin(parts[1..], c);
      SplitAtFirstSeparator(parts[0], c, Join(parts[1..], [c]));
      assert [parts[0]] + parts[1..] == parts;
    }
  }

  /** The characters `String.prototype.trim` removes: the WhiteSpace and
      LineTerminator characters of ECMA-262 (section 12.2 and 12.3 of the
      2023 edition). */
  predicate IsTrimmable(c: char) {
    || c == '\t' || c == '\n' || c == '\U{000B}' || c == '\U{000C}' || c == '\r'
    || c == ' ' || c == '\U{00A0}' || c == '\U{1680}'
    || ('\U{2000}' <= c <= '\U{200A}')
    || c == '\U{2028}' || c == '\U{2029}' || c == '\U{202F}' || c == '\U{205F}'
    || c == '\U{3000}' || c == '\U{FEFF}'
  }

  /** The leading trimmable characters removed. */
  function TrimStart(s: string): (r: string)
    ensures |r| <= |s|
    decreases |s|
  {
    if s != [] && IsTrimmable(s[0]) then TrimStart(s[1..]) else s
  }

  /** What `TrimStart` keeps is a suffix that does not start with a
      trimmable character, and everything it removes is trimmable. */
  lemma {:induction false} TrimStartSpec(s: string)
    ensures var r := TrimStart(s);
      && r == s[|s| - |r|..]
      && (forall i :: 0 <= i < |s| - |r| ==> IsTrimmable(s[i]))
      && (r != [] ==> !IsTrimmable(r[0]))
    decreases |s|
  {
    if s != [] && IsTrimmable(s[0]) {
      var t := s[1..];
      TrimStartSpec(t);
      var r := TrimStart(t);
      assert t[|t| - |r|..] == s[|s| - |r|..];
      forall i | 1 <= i < |s| - |r|
        ensures IsTrimmable(s[i])
      {
        assert s[i] == t[i - 1];
      }
    }
  }

  /** The trailing trimmable characters removed. */
  function TrimEnd(s: string): (r: string)
    ensures |r| <= |s|
    decreases |s|
  {
    if s != [] && IsTrimmable(s[|s| - 1]) then TrimEnd(s[..|s| - 1]) else s
  }

  /** What `TrimEnd` keeps is a prefix that does not end with a trimmable
      character, and everything it removes is trimmable. */
  lemma {:induction false} TrimEndSpec(s: string)
    ensures var r := TrimEnd(s);
      && r == s[..|r|]
      && (forall i :: |r| <= i < |s| ==> IsTrimmable(s[i]))
      && (r != [] ==> !IsTrimmable(r[|r| - 1]))
    decreases |s|
  {
    if s != [] && IsTrimmable(s[|s| - 1]) {
      var t := s[..|s| - 1];
      TrimEndSpec(t);
      var r := TrimEnd(t);
      assert t[..|r|] == s[..|r|];
      forall i | |r| <= i < |s| - 1
        ensures IsTrimmable(s[i])
      {
        assert s[i] == t[i];
      }
    }
  }

  /** `r` is the block of `s` starting at `a`, and everything of `s` around
      it is trimmable. */
  ghost predicate TrimmedAt(s: string, r: string, a: int) {
    && 0 <= a && a + |r| <= |s|
    && r == s[a..a + |r|]
    && (forall i :: 0 <= i < a ==> IsTrimmable(s[i]))
    && (forall i :: a + |r| <= i < |s| ==> IsTrimmable(s[i]))
  }

  /** `s.trim()`: `s` without its leading and trailing trimmable characters. */
  function Trim(s: string): (r: string)
    ensures exists a :: TrimmedAt(s, r, a)
    ensures r != [] ==> !IsTrimmable(r[0]) && !IsTrimmable(r[|r| - 1])
    ensures r == [] <==> forall i :: 0 <= i < |s| ==> IsTrimmable(s[i])
  {
    TrimStartSpec(s);
    TrimEndSpec(TrimStart(s));
    TrimBothEnds(s);
    TrimEnd(TrimStart(s))
  }

  /** Trimming the start and then the end leaves the trimmed block. */
  lemma TrimBothEnds(s: string)
    ensures TrimmedAt(s, TrimEnd(TrimStart(s)), |s| - |TrimStart(s)|)
  {
    var t := TrimStart(s);
    var a := |s| - |t|;
    var r := TrimEnd(t);
    TrimStartSpec(s);
    SuffixTrimEnd(s, t, a);
    assert TrimmedAt(s, r, a);
  }

  /** Trimming the end of a suffix `t` of `s` keeps a block of `s`, with only
      trimmable characters after it. */
  lemma SuffixTrimEnd(s: string, t: string, a: int)
    requires 0 <= a <= |s| && t == s[a..]
    ensures var r := TrimEnd(t);
      && a + |r| <= |s|
      && r == s[a..a + |r|]
      && forall i :: a + |r| <= i < |s| ==> IsTrimmable(s[i])
  {
    var r := TrimEnd(t);
    TrimEndSpec(t);
    assert r == t[..|r|];
    forall i | a + |r| <= i < |s|
      ensures IsTrimmable(s[i])
    {
      assert s[i] == t[i - a];
    }
  }

  /** A string whose ends are not trimmable is its own trimmed text. */
  lemma TrimUntrimmed(s: string)
    requires s != [] && !IsTrimmable(s[0]) && !IsTrimmable(s[|s| - 1])
    ensures Trim(s) == s
  {
    assert s[0..|s|] == s;
    TrimIs(s, s, 0);
  }

  /** Trimming twice is trimming once. */
  lemma TrimIdempotent(s: string)
    ensures Trim(Trim(s)) == Trim(s)
  {
    var r := Trim(s);
    if r != [] {
      assert TrimStart(r) == r;
      assert TrimEnd(r) == r;
    }
  }

  /** Only one block of a string is its trimmed text. */
  lemma TrimmedAtUnique(s: string, r: string, r': string)
    requires (exists a :: TrimmedAt(s, r, a)) && (exists b :: TrimmedAt(s, r', b))
    requires r != [] ==> !IsTrimmable(r[0]) && !IsTrimmable(r[|r| - 1])
    requires r' != [] ==> !IsTrimmable(r'[0]) && !IsTrimmable(r'[|r'| - 1])
    ensures r == r'
  {
    var a :| TrimmedAt(s, r, a);
    var b :| TrimmedAt(s, r', b);
    assert r != [] ==> s[a] == r[0] && s[a + |r| - 1] == r[|r| - 1];
    assert r' != [] ==> s[b] == r'[0] && s[b + |r'| - 1] == r'[|r'| - 1];
  }

  /** Lowering neither creates nor removes a trimmable character. */
  lemma LowerCharKeepsTrimmable(c: char)
    ensures IsTrimmable(LowerChar(c)) <==> IsTrimmable(c)
  {
  }

  /** Lowering commutes with removing leading trimmable characters. */
  lemma {:induction false} TrimStartLower(s: string)
    ensures TrimStart(Lower(s)) == Lower(TrimStart(s))
    decreases |s|
  {
    if s != [] {
      LowerCharKeepsTrimmable(s[0]);
      assert Lower(s)[0] == LowerChar(s[0]);
      if IsTrimmable(s[0]) {
        assert Lower(s)[1..] == Lower(s[1..]);
        TrimStartLower(s[1..]);
        assert TrimStart(Lower(s)) == TrimStart(Lower(s[1..]));
        assert TrimStart(s) == TrimStart(s[1..]);
      } else {
        assert TrimStart(Lower(s)) == Lower(s);
        assert TrimStart(s) == s;
      }
    }
  }

  /** Lowering commutes with removing trailing trimmable characters. */
  lemma {:induction false} TrimEndLower(s: string)
    ensures TrimEnd(Lower(s)) == Lower(TrimEnd(s))
    decreases |s|
  {
    if s != [] {
      var n := |s| - 1;
      LowerCharKeepsTrimmable(s[n]);
      assert Lower(s)[n] == LowerChar(s[n]);
      if IsTrimmable(s[n]) {
        assert Lower(s)[..n] == Lower(s[..n]);
        TrimEndLower(s[..n]);
        assert TrimEnd(Lower(s)) == TrimEnd(Lower(s[..n]));
        assert TrimEnd(s) == TrimEnd(s[..n]);
      } else {
        assert TrimEnd(Lower(s)) == Lower(s);
        assert TrimEnd(s) == s;
      }
    }
  }

  /** Lowering commutes with trimming. */
  lemma TrimLower(s: string)
    ensures Trim(Lower(s)) == Lower(Trim(s))
  {
    TrimStartLower(s);
    TrimEndLower(TrimStart(s));
  }

  /** A block with untrimmable ends and only trimmable text around it is
      the trimmed text. */
  lemma TrimIs(s: string, r: string, a: int)
    requires TrimmedAt(s, r, a)
    requires r != [] ==> !IsTrimmable(r[0]) && !IsTrimmable(r[|r| - 1])
    ensures Trim(s) == r
  {
    TrimmedAtUnique(s, Trim(s), r);
  }
}
