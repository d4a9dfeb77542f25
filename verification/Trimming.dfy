/** Go's strings.TrimSpace. */
module Trimming {

  /** Go's unicode.IsSpace. */
  predicate IsSpace(c: char) {
    '\t' <= c <= '\r' || c == ' ' || c == '\U{85}' || c == '\U{A0}' || c == '\U{1680}'
    || '\U{2000}' <= c <= '\U{200A}' || c in {'\U{2028}', '\U{2029}', '\U{202F}', '\U{205F}', '\U{3000}'}
  }

  /** The 25 code points with the Unicode property White_Space. */
  lemma SpaceCodePoints(c: char)
    ensures IsSpace(c) <==>
            c as int in {9, 10, 11, 12, 13, 32, 133, 160, 5760, 8192, 8193, 8194, 8195, 8196, 8197, 8198, 8199, 8200,
                         8201, 8202, 8232, 8233, 8239, 8287, 12288}
  {
  }

  function TrimLeft(s: string): string {
    if s != [] && IsSpace(s[0]) then TrimLeft(s[1..]) else s
  }

  function TrimRight(s: string): string {
    if s != [] && IsSpace(s[|s| - 1]) then TrimRight(s[..|s| - 1]) else s
  }

  function TrimSpace(s: string): string {
    TrimRight(TrimLeft(s))
  }

  /** No space at either end. */
  predicate Trimmed(s: string) {
    s == "" || (!IsSpace(s[0]) && !IsSpace(s[|s| - 1]))
  }

  lemma {:induction false} TrimRightIsTrimmed(s: string)
    requires s == "" || !IsSpace(s[0])
    ensures Trimmed(TrimRight(s)) && forall c :: c in TrimRight(s) ==> c in s
  {
    if s != [] && IsSpace(s[|s| - 1]) {
      TrimRightIsTrimmed(s[..|s| - 1]);
    }
  }

  lemma {:induction false} TrimLeftStarts(s: string)
    ensures (TrimLeft(s) == "" || !IsSpace(TrimLeft(s)[0])) && forall c :: c in TrimLeft(s) ==> c in s
  {
    if s != [] && IsSpace(s[0]) {
      TrimLeftStarts(s[1..]);
    }
  }

  lemma TrimSpaceIsTrimmed(s: string)
    ensures Trimmed(TrimSpace(s)) && forall c :: c in TrimSpace(s) ==> c in s
  {
    TrimLeftStarts(s);
    TrimRightIsTrimmed(TrimLeft(s));
  }

  /** One leading blank goes, and nothing else of a trimmed text. */
  lemma TrimOfTrimmed(s: string)
    requires Trimmed(s)
    ensures TrimSpace(s) == s && TrimSpace(" " + s) == s
  {
    assert (" " + s)[1..] == s;
    assert TrimLeft(" " + s) == TrimLeft(s) == s;
  }

  ghost predicate AllSpace(s: string) {
    forall c :: c in s ==> IsSpace(c)
  }

  lemma SpaceAround(c: char, s: string)
    requires IsSpace(c) && AllSpace(s)
    ensures AllSpace([c] + s) && AllSpace(s + [c])
  {
  }

  lemma {:induction false} TrimLeftRemoves(s: string) returns (left: string)
    ensures AllSpace(left) && s == left + TrimLeft(s)
  {
    if s != [] && IsSpace(s[0]) {
      var rest := TrimLeftRemoves(s[1..]);
      SpaceAround(s[0], rest);
      left := [s[0]] + rest;
      assert s == [s[0]] + s[1..] == [s[0]] + (rest + TrimLeft(s)) == left + TrimLeft(s);
    } else {
      left := "";
    }
  }

  lemma {:induction false} TrimRightRemoves(s: string) returns (right: string)
    ensures AllSpace(right) && s == TrimRight(s) + right
  {
    if s != [] && IsSpace(s[|s| - 1]) {
      var (front, last) := (s[..|s| - 1], s[|s| - 1]);
      var rest := TrimRightRemoves(front);
      SpaceAround(last, rest);
      right := rest + [last];
      assert s == front + [last] == (TrimRight(s) + rest) + [last] == TrimRight(s) + right;
    } else {
      right := "";
    }
  }

  /** Only spaces at the ends are removed. */
  lemma TrimSpaceRemoves(s: string) returns (left: string, right: string)
    ensures AllSpace(left) && AllSpace(right) && s == left + TrimSpace(s) + right
  {
    left := TrimLeftRemoves(s);
    right := TrimRightRemoves(TrimLeft(s));
  }

  lemma {:induction false} TrimLeftOfPadded(left: string, s: string)
    requires AllSpace(left)
    ensures TrimLeft(left + s) == TrimLeft(s)
  {
    if left == "" {
      assert left + s == s;
    } else {
      TrimLeftOfPadded(left[1..], s);
      assert (left + s)[1..] == left[1..] + s;
    }
  }

  lemma {:induction false} TrimRightOfPadded(s: string, right: string)
    requires AllSpace(right)
    ensures TrimRight(s + right) == TrimRight(s)
  {
    if right == "" {
      assert s + right == s;
    } else {
      var front := right[..|right| - 1];
      TrimRightOfPadded(s, front);
      assert (s + right)[..|s + right| - 1] == s + front;
    }
  }

  lemma {:induction false} TrimLeftOfSpace(s: string)
    requires AllSpace(s)
    ensures TrimLeft(s) == ""
  {
    if s != "" {
      TrimLeftOfSpace(s[1..]);
    }
  }

  /** All spaces at the ends are removed: whatever they are, a trimmed text between them is the result. */
  lemma TrimSpaceOfPadded(left: string, core: string, right: string)
    requires AllSpace(left) && AllSpace(right) && Trimmed(core)
    ensures TrimSpace(left + core + right) == core
  {
    assert left + core + right == left + (core + right);
    TrimLeftOfPadded(left, core + right);
    if core == "" {
      assert core + right == right;
      TrimLeftOfSpace(right);
    } else {
      assert TrimLeft(core + right) == core + right;
      TrimRightOfPadded(core, right);
    }
  }

  /** `core` is trimmed, and `s` is `core` with spaces around it. */
  ghost predicate Pads(s: string, core: string) {
    Trimmed(core) && exists left, right :: AllSpace(left) && AllSpace(right) && s == left + core + right
  }

  /** What TrimSpace returns: the one trimmed text that the argument pads with spaces. */
  lemma TrimSpaceExactly(s: string, core: string)
    ensures TrimSpace(s) == core <==> Pads(s, core)
  {
    if Pads(s, core) {
      var left, right :| AllSpace(left) && AllSpace(right) && s == left + core + right;
      TrimSpaceOfPadded(left, core, right);
    }
    var l, r := TrimSpaceRemoves(s);
    TrimSpaceIsTrimmed(s);
  }
}
