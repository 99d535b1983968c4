/** String helpers the task list relies on: Python's `str.strip()`,
    `str.split(' ')`, the substring test `sub in s`, and the priority-label
    cleanup built from them. Strings are sequences of Unicode code points. */
module Text {

  /** Python's `str.isspace()` for a single code point. */
  predicate IsSpace(c: char) {
    || c == ' '
    || '\t' <= c <= '\r'
    || '\U{1C}' <= c <= '\U{1F}'
    || c == '\U{85}' || c == '\U{A0}' || c == '\U{1680}'
    || '\U{2000}' <= c <= '\U{200A}'
    || c == '\U{2028}' || c == '\U{2029}' || c == '\U{202F}'
    || c == '\U{205F}' || c == '\U{3000}'
  }

  /** Every character is whitespace (this includes the empty string). */
  predicate IsBlank(s: string) {
    forall i :: 0 <= i < |s| ==> IsSpace(s[i])
  }

  /** Drops leading whitespace: the result is the longest suffix that does not
      start with whitespace, and what was dropped is blank. */
  function TrimStart(s: string): (r: string)
    ensures |r| <= |s| && r == s[|s| - |r|..]
    ensures IsBlank(s[..|s| - |r|])
    ensures r == [] || !IsSpace(r[0])
  {
    if s != [] && IsSpace(s[0]) then
      var r := TrimStart(s[1..]);
      var n := |s| - |r|;
      assert r == s[n..];
      var dropped := s[..n];
      forall i | 0 <= i < n ensures IsSpace(dropped[i]) {
        if i == 0 {
          assert dropped[i] == s[0];
        } else {
          assert dropped[i] == s[1..][..n - 1][i - 1];
        }
      }
      r
    else s
  }

  /** Drops trailing whitespace. */
  function TrimEnd(s: string): (r: string)
    ensures |r| <= |s| && r == s[..|r|]
    ensures IsBlank(s[|r|..])
    ensures r == [] || !IsSpace(r[|r| - 1])
  {
    if s != [] && IsSpace(s[|s| - 1]) then
      var r := TrimEnd(s[..|s| - 1]);
      assert r == s[..|r|];
      var dropped := s[|r|..];
      forall i | 0 <= i < |dropped| ensures IsSpace(dropped[i]) {
        if i < |dropped| - 1 {
          assert dropped[i] == s[..|s| - 1][|r|..][i];
        }
      }
      r
    else s
  }

  /** Python's `s.strip()`: the slice of `s` left after removing blank padding
      on both sides. It is empty exactly when `s` is blank. */
  function Strip(s: string): (r: string)
    ensures r == [] <==> IsBlank(s)
    ensures r == [] || (!IsSpace(r[0]) && !IsSpace(r[|r| - 1]))
  {
    TrimEnd(TrimStart(s))
  }

  lemma {:induction false} TrimStartOfPadded(lead: string, rest: string)
    requires IsBlank(lead)
    requires rest == [] || !IsSpace(rest[0])
    ensures TrimStart(lead + rest) == rest
  {
    if lead != [] {
      assert (lead + rest)[1..] == lead[1..] + rest;
      TrimStartOfPadded(lead[1..], rest);
    }
  }

  lemma {:induction false} TrimEndOfPadded(rest: string, trail: string)
    requires IsBlank(trail)
    requires rest == [] || !IsSpace(rest[|rest| - 1])
    ensures TrimEnd(rest + trail) == rest
  {
    if trail != [] {
      var n := |trail|;
      assert (rest + trail)[..|rest| + n - 1] == rest + trail[..n - 1];
      TrimEndOfPadded(rest, trail[..n - 1]);
    }
  }

  /** The reference characterisation of `Strip`: padding a core that has no
      whitespace at either end with blank text on both sides, then stripping,
      gives the core back. */
  lemma StripOfPadded(lead: string, core: string, trail: string)
    requires IsBlank(lead) && IsBlank(trail)
    requires core == [] || (!IsSpace(core[0]) && !IsSpace(core[|core| - 1]))
    ensures Strip(lead + core + trail) == core
  {
    if core == [] {
      assert lead + core + trail == lead + trail;
      assert IsBlank(lead + trail);
    } else {
      assert lead + core + trail == lead + (core + trail);
      TrimStartOfPadded(lead, core + trail);
      TrimEndOfPadded(core, trail);
    }
  }

  /** Stripping twice is stripping once. */
  lemma StripIdempotent(s: string)
    ensures Strip(Strip(s)) == Strip(s)
  {
    var r := Strip(s);
    assert r == [] + r + [];
    StripOfPadded([], r, []);
  }

  /** The index of the first ' ' in `s`. */
  function IndexOfSpace(s: string): (i: nat)
    requires ' ' in s
    ensures i < |s| && s[i] == ' ' && ' ' !in s[..i]
  {
    if s[0] == ' ' then 0
    else
      assert ' ' in s[1..];
      var j := IndexOfSpace(s[1..]);
      assert s[..j + 1] == [s[0]] + s[1..][..j];
      j + 1
  }

  /** The first space is the one with no space before it. */
  lemma FirstSpace(s: string, j: nat)
    requires j < |s| && s[j] == ' ' && ' ' !in s[..j]
    ensures IndexOfSpace(s) == j
  {
  }

  /** Joins fields with single spaces: the inverse of `SplitOnSpace`. */
  function JoinOnSpace(fields: seq<string>): string
    requires |fields| >= 1
  {
    if |fields| == 1 then fields[0] else fields[0] + " " + JoinOnSpace(fields[1..])
  }

  /** Python's `s.split(' ')`: the pieces between single spaces, empty pieces
      included. There are at least two pieces exactly when `s` has a space. */
  function SplitOnSpace(s: string): (fields: seq<string>)
    ensures |fields| >= 1
    ensures ' ' in s <==> |fields| >= 2
    ensures forall k :: 0 <= k < |fields| ==> ' ' !in fields[k]
    ensures JoinOnSpace(fields) == s
    decreases |s|
  {
    if ' ' !in s then [s]
    else
      var i := IndexOfSpace(s);
      var rest := SplitOnSpace(s[i + 1..]);
      assert s == s[..i] + " " + s[i + 1..];
      [s[..i]] + rest
  }

  /** Splitting what was joined gives back the fields, provided none of them
      has a space of its own. */
  lemma {:induction false} SplitJoin(fields: seq<string>)
    requires |fields| >= 1
    requires forall k :: 0 <= k < |fields| ==> ' ' !in fields[k]
    ensures SplitOnSpace(JoinOnSpace(fields)) == fields
  {
    if |fields| > 1 {
      var head, tail := fields[0], JoinOnSpace(fields[1..]);
      var s := head + " " + tail;
      assert s[..|head|] == head;
      FirstSpace(s, |head|);
      assert s[|head| + 1..] == tail;
      SplitJoin(fields[1..]);
    }
  }

  /** The priority cleanup applied to the combo box text:
      `raw.split(' ')[1] if ' ' in raw else raw`. */
  function PriorityLabel(raw: string): (name: string)
    ensures ' ' !in name
  {
    if ' ' in raw then SplitOnSpace(raw)[1] else raw
  }

  /** A name decorated with a badge and one space, as the priority combo
      boxes offer them ("\U{1F534} High", "\U{1F7E1} Medium", "\U{1F7E2} Low"),
      cleans up to the bare name. */
  lemma BadgedLabel(badge: string, name: string)
    requires ' ' !in badge && ' ' !in name
    ensures PriorityLabel(badge + " " + name) == name
  {
    SplitJoin([badge, name]);
  }

  /** Cleaning up a cleaned label changes nothing. */
  lemma PriorityLabelIdempotent(raw: string)
    ensures PriorityLabel(PriorityLabel(raw)) == PriorityLabel(raw)
  {
  }

  /** Python's `sub in s` on strings: `sub` occurs as a contiguous slice. */
  predicate Contains(s: string, sub: string)
    decreases |s|
  {
    (|sub| <= |s| && s[..|sub|] == sub) || (s != [] && Contains(s[1..], sub))
  }

  /** Any string that ends with `sub` contains it. */
  lemma {:induction false} ContainsSuffix(prefix: string, sub: string)
    ensures Contains(prefix + sub, sub)
    decreases |prefix|
  {
    var s := prefix + sub;
    if prefix == [] {
      assert s[..|sub|] == sub;
    } else {
      assert s[1..] == prefix[1..] + sub;
      ContainsSuffix(prefix[1..], sub);
    }
  }

  /** Every character of a contained string occurs in the containing one. */
  lemma {:induction false} ContainsLetters(s: string, sub: string)
    requires Contains(s, sub)
    ensures forall c :: c in sub ==> c in s
    decreases |s|
  {
    if |sub| <= |s| && s[..|sub|] == sub {
      assert forall i :: 0 <= i < |sub| ==> sub[i] == s[i];
    } else {
      ContainsLetters(s[1..], sub);
    }
  }
}
