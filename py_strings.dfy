/** Python's `str` operations as the extraction script uses them: substring
    search (`find`, `rfind`), `strip`, `split` on a separator, `join`, and
    slicing with Python's index normalisation. Strings are `seq<char>`. */
module PyStrings {

  /** `sub` occurs in `s` starting at index `i`. */
  predicate OccursAt(s: string, sub: string, i: int)
  {
    0 <= i && i + |sub| <= |s| && s[i..i + |sub|] == sub
  }

  /** `sub` occurs somewhere in `s` (Python's `sub in s`). */
  ghost predicate Contains(s: string, sub: string)
  {
    exists i :: OccursAt(s, sub, i)
  }

  /** A one-character pattern occurs exactly where that character stands. */
  lemma OccursAtChar(s: string, c: char, i: int)
    ensures OccursAt(s, [c], i) <==> 0 <= i < |s| && s[i] == c
  {
    if 0 <= i < |s| {
      assert s[i..i + 1] == [s[i]];
    }
  }

  /** `s.find(sub, start)`: the first index at or after `start` where `sub`
      occurs, or -1 when there is none. */
  function FindFrom(s: string, sub: string, start: nat): int
    decreases |s| - start
  {
    if start + |sub| > |s| then -1
    else if s[start..start + |sub|] == sub then start
    else FindFrom(s, sub, start + 1)
  }

  /** `FindFrom` gives -1 exactly when `sub` does not occur from `start` on,
      and otherwise the first occurrence from `start` on. */
  lemma {:induction false} FindFromSpec(s: string, sub: string, start: nat)
    ensures FindFrom(s, sub, start) == -1 || (start <= FindFrom(s, sub, start) && OccursAt(s, sub, FindFrom(s, sub, start)))
    ensures FindFrom(s, sub, start) == -1 ==> forall j :: start <= j ==> !OccursAt(s, sub, j)
    ensures forall j :: start <= j < FindFrom(s, sub, start) ==> !OccursAt(s, sub, j)
    decreases |s| - start
  {
    if start + |sub| <= |s| && s[start..start + |sub|] != sub {
      FindFromSpec(s, sub, start + 1);
    }
  }

  /** `s.find(sub)`. */
  function Find(s: string, sub: string): int
  {
    FindFrom(s, sub, 0)
  }

  /** `s.find(sub)` is -1 exactly when `sub` does not occur in `s`, and
      otherwise the first index where it occurs. */
  lemma FindSpec(s: string, sub: string)
    ensures Find(s, sub) == -1 <==> !Contains(s, sub)
    ensures Find(s, sub) != -1 ==>
              OccursAt(s, sub, Find(s, sub)) && forall j :: 0 <= j < Find(s, sub) ==> !OccursAt(s, sub, j)
  {
    FindFromSpec(s, sub, 0);
  }

  /** The last index below `bound` where `sub` occurs, or -1 when there is none. */
  function RFindBelow(s: string, sub: string, bound: nat): int
  {
    if bound == 0 then -1
    else if OccursAt(s, sub, bound - 1) then bound - 1
    else RFindBelow(s, sub, bound - 1)
  }

  /** `RFindBelow` gives -1 or an occurrence below `bound`, with none
      between it and `bound`. */
  lemma {:induction false} RFindBelowSpec(s: string, sub: string, bound: nat)
    ensures RFindBelow(s, sub, bound) == -1 || (RFindBelow(s, sub, bound) < bound && OccursAt(s, sub, RFindBelow(s, sub, bound)))
    ensures forall j :: RFindBelow(s, sub, bound) < j < bound ==> !OccursAt(s, sub, j)
  {
    if bound > 0 && !OccursAt(s, sub, bound - 1) {
      RFindBelowSpec(s, sub, bound - 1);
    }
  }

  /** `s.rfind(sub)`. */
  function RFind(s: string, sub: string): int
  {
    RFindBelow(s, sub, |s| + 1)
  }

  /** `s.rfind(sub)` is -1 exactly when `sub` does not occur in `s`, and
      otherwise the last index where it occurs. */
  lemma RFindSpec(s: string, sub: string)
    ensures RFind(s, sub) == -1 <==> !Contains(s, sub)
    ensures RFind(s, sub) != -1 ==>
              OccursAt(s, sub, RFind(s, sub)) && forall j :: RFind(s, sub) < j ==> !OccursAt(s, sub, j)
  {
    RFindBelowSpec(s, sub, |s| + 1);
    forall j | |s| + 1 <= j ensures !OccursAt(s, sub, j) {
    }
  }

  /** Python's normalisation of a slice bound against a length `n`: a
      negative bound counts from the end, and the result is clamped to
      `0..n`. */
  function SliceBound(i: int, n: nat): (r: nat)
    ensures r <= n
    ensures 0 <= i <= n ==> r == i
    ensures -(n as int) <= i < 0 ==> r == n + i
    ensures i < -(n as int) ==> r == 0
    ensures n < i ==> r == n
  {
    if i < 0 then (if n + i < 0 then 0 else n + i)
    else if i > n then n
    else i
  }

  /** `s[a:b]` with Python semantics: empty when the normalised bounds
      are not increasing. */
  function Slice(s: string, a: int, b: int): (r: string)
    ensures |r| <= |s|
    ensures SliceBound(a, |s|) < SliceBound(b, |s|) ==> r == s[SliceBound(a, |s|)..SliceBound(b, |s|)]
    ensures SliceBound(b, |s|) <= SliceBound(a, |s|) ==> r == []
  {
    var lo := SliceBound(a, |s|);
    var hi := SliceBound(b, |s|);
    if lo < hi then s[lo..hi] else []
  }

  /** The characters `str.isspace()` accepts, hence those `str.strip()`
      removes: tab to carriage return, the four information separators,
      space, next line, no-break space and the Unicode space separators. */
  predicate IsSpace(c: char)
  {
    var n := c as int;
    (9 <= n <= 13) || (28 <= n <= 32) || n == 0x85 || n == 0xA0 || n == 0x1680
    || (0x2000 <= n <= 0x200A) || n == 0x2028 || n == 0x2029 || n == 0x202F
    || n == 0x205F || n == 0x3000
  }

  /** The number of whitespace characters `s.lstrip()` removes. */
  function LeadingSpaces(s: string): (n: nat)
    ensures n <= |s|
    ensures forall k :: 0 <= k < n ==> IsSpace(s[k])
    ensures n < |s| ==> !IsSpace(s[n])
  {
    if s != [] && IsSpace(s[0]) then 1 + LeadingSpaces(s[1..]) else 0
  }

  /** The number of whitespace characters `s.rstrip()` removes. */
  function TrailingSpaces(s: string): (n: nat)
    ensures n <= |s|
    ensures forall k :: |s| - n <= k < |s| ==> IsSpace(s[k])
    ensures n < |s| ==> !IsSpace(s[|s| - 1 - n])
  {
    if s != [] && IsSpace(s[|s| - 1]) then 1 + TrailingSpaces(s[..|s| - 1]) else 0
  }

  /** `s.strip()`: `s` without its leading and trailing whitespace. */
  function Strip(s: string): (r: string)
    ensures LeadingSpaces(s) + |r| <= |s| && r == s[LeadingSpaces(s)..LeadingSpaces(s) + |r|]
    ensures forall k :: LeadingSpaces(s) + |r| <= k < |s| ==> IsSpace(s[k])
    ensures r != [] ==> !IsSpace(r[0]) && !IsSpace(r[|r| - 1])
  {
    var t := s[LeadingSpaces(s)..];
    var r := t[..|t| - TrailingSpaces(t)];
    assert forall k :: LeadingSpaces(s) + |r| <= k < |s| ==> s[k] == t[k - LeadingSpaces(s)];
    r
  }

  /** A stripped string is empty exactly when the original is all whitespace. */
  lemma StripEmptyIffBlank(s: string)
    ensures Strip(s) == [] <==> forall k :: 0 <= k < |s| ==> IsSpace(s[k])
  {
    var lo := LeadingSpaces(s);
    if Strip(s) == [] && lo < |s| {
      assert false;
    }
  }

  /** `sep.join(parts)`. */
  function Join(parts: seq<string>, sep: string): string
  {
    if |parts| == 0 then []
    else if |parts| == 1 then parts[0]
    else parts[0] + sep + Join(parts[1..], sep)
  }

  /** `s.split(sep)` for a non-empty separator: the pieces between the
      non-overlapping occurrences of `sep`, found from left to right. */
  function Split(s: string, sep: string): (parts: seq<string>)
    requires |sep| > 0
    ensures |parts| >= 1
    ensures parts == [s] <==> !Contains(s, sep)
    decreases |s|
  {
    FindSpec(s, sep);
    var i := Find(s, sep);
    if i == -1 then [s]
    else [s[..i]] + Split(s[i + |sep|..], sep)
  }

  /** Joining the pieces of a split with the same separator gives back the
      original text. */
  lemma {:induction false} SplitJoin(s: string, sep: string)
    requires |sep| > 0
    ensures Join(Split(s, sep), sep) == s
    decreases |s|
  {
    FindSpec(s, sep);
    var i := Find(s, sep);
    if i != -1 {
      var rest := s[i + |sep|..];
      SplitJoin(rest, sep);
      JoinAround(s, sep, i, Split(rest, sep));
    }
  }

  /** Putting back the separator found at `i` between the text before it
      and the rejoined pieces after it restores the text. */
  lemma JoinAround(s: string, sep: string, i: int, tail: seq<string>)
    requires OccursAt(s, sep, i) && |tail| >= 1
    requires Join(tail, sep) == s[i + |sep|..]
    ensures Join([s[..i]] + tail, sep) == s
  {
    var parts := [s[..i]] + tail;
    assert |parts| >= 2 && parts[0] == s[..i] && parts[1..] == tail;
    assert Join(parts, sep) == s[..i] + sep + Join(tail, sep);
    assert sep == s[i..i + |sep|];
    ThreeWay(s, i, i + |sep|);
  }

  /** A sequence is the concatenation of its pieces around two cut points. */
  lemma ThreeWay<T>(s: seq<T>, i: nat, j: nat)
    requires i <= j <= |s|
    ensures s == s[..i] + s[i..j] + s[j..]
  {
    assert s[..j] == s[..i] + s[i..j];
    assert s == s[..j] + s[j..];
  }

  /** When the separator occurs, the first piece is the text before its
      leftmost occurrence, and the other pieces split the text after it. */
  lemma SplitFirstPiece(s: string, sep: string)
    requires |sep| > 0 && Contains(s, sep)
    ensures 0 <= Find(s, sep) && OccursAt(s, sep, Find(s, sep))
    ensures forall j :: 0 <= j < Find(s, sep) ==> !OccursAt(s, sep, j)
    ensures Split(s, sep) == [s[..Find(s, sep)]] + Split(s[Find(s, sep) + |sep|..], sep)
  {
    FindSpec(s, sep);
  }

  /** No piece of a split contains the separator. */
  lemma {:induction false} SplitPiecesFree(s: string, sep: string)
    requires |sep| > 0
    ensures forall k :: 0 <= k < |Split(s, sep)| ==> !Contains(Split(s, sep)[k], sep)
    decreases |s|
  {
    FindSpec(s, sep);
    var i := Find(s, sep);
    if i != -1 {
      var rest := s[i + |sep|..];
      SplitPiecesFree(rest, sep);
      BeforeFirstFree(s, sep, i);
      var parts := Split(s, sep);
      var tail := Split(rest, sep);
      assert parts == [s[..i]] + tail;
      forall k | 0 <= k < |parts| ensures !Contains(parts[k], sep) {
        if k > 0 {
          assert parts[k] == tail[k - 1];
        }
      }
    }
  }

  /** The text before the first occurrence of `sep` does not contain it. */
  lemma BeforeFirstFree(s: string, sep: string, i: int)
    requires |sep| > 0
    requires OccursAt(s, sep, i) && forall j :: 0 <= j < i ==> !OccursAt(s, sep, j)
    ensures !Contains(s[..i], sep)
  {
    var head := s[..i];
    forall j | OccursAt(head, sep, j) ensures false {
      assert head[j..j + |sep|] == s[j..j + |sep|];
      assert OccursAt(s, sep, j);
    }
  }
}
