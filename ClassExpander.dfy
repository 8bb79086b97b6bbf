/** The scanner that rewrites single-range character classes `[x-y]` into an
    explicit alternation `(x|...|y)` and copies every other character. */
module ClassExpander {
  import opened Errors

  /** The integers that Dafny's `char` can hold (Unicode scalar values). */
  predicate IsScalar(k: int) {
    0 <= k < 0xD800 || 0xE000 <= k < 0x11_0000
  }

  /** The characters whose ordinals lie in `lo..hi`, in ascending order
      (Python's `[chr(c) for c in range(lo, hi + 1)]`). */
  function CodeRange(lo: int, hi: int): (r: seq<char>)
    ensures forall c :: c in r <==> lo <= c as int <= hi
    ensures forall k :: 0 <= k < |r| - 1 ==> r[k] < r[k + 1]
    ensures lo > hi ==> r == []
    decreases if lo > hi then 0 else hi - lo + 1
  {
    if lo > hi then []
    else
      var rest := CodeRange(lo + 1, hi);
      assert rest != [] ==> rest[0] in rest;
      (if IsScalar(lo) then [lo as char] else []) + rest
  }

  /** `'|'.join(cs)` for a list of one-character strings. */
  function Join(cs: seq<char>): (r: seq<char>)
    ensures |r| == if cs == [] then 0 else 2 * |cs| - 1
    ensures forall m :: 0 <= m < |r| && m % 2 == 0 ==> r[m] == cs[m / 2]
    ensures forall m :: 0 <= m < |r| && m % 2 == 1 ==> r[m] == '|'
  {
    if |cs| <= 1 then cs else [cs[0], '|'] + Join(cs[1..])
  }

  /** The replacement text of the class `[lo-hi]`. */
  function RangeText(lo: char, hi: char): seq<char> {
    "(" + Join(CodeRange(lo as int, hi as int)) + ")"
  }

  /** The index of the first `]` at or after `j`, or `|s|` when there is none. */
  function CloseIndex(s: string, j: nat): (k: nat)
    requires j <= |s|
    ensures j <= k <= |s|
    ensures k < |s| ==> s[k] == ']'
    ensures forall m :: j <= m < k ==> s[m] != ']'
    decreases |s| - j
  {
    if j == |s| || s[j] == ']' then j else CloseIndex(s, j + 1)
  }

  /** What the source does with the text between `[` and `]`. */
  function ClassBody(content: string): (r: Result<string>)
    ensures r.Ok? <==> |content| == 3 && content[1] == '-'
    ensures r.Ok? ==> r.value == RangeText(content[0], content[2])
    ensures r == Err(InvalidCharacterClass) <==> |content| == 3 && '-' in content && content[1] != '-'
    ensures r == Err(UnsupportedCharacterClass) <==> !(|content| == 3 && '-' in content)
  {
    if '-' in content && |content| == 3 then
      if content[1] != '-' then Err(InvalidCharacterClass)
      else Ok(RangeText(content[0], content[2]))
    else Err(UnsupportedCharacterClass)
  }

  /** Puts `p` in front of a successful result; an error passes through. */
  function Prepend(p: string, r: Result<string>): Result<string> {
    match r
    case Ok(rest) => Ok(p + rest)
    case Err(e) => Err(e)
  }

  /** The expansion of `s[i..]`, scanning left to right, failing at the first
      malformed class. */
  function ExpandFrom(s: string, i: nat): Result<string>
    requires i <= |s|
    decreases |s| - i
  {
    if i == |s| then Ok([])
    else if s[i] == '[' then
      var j := CloseIndex(s, i + 1);
      if j == |s| then Err(UnmatchedBracket)
      else
        match ClassBody(s[i + 1..j])
        case Err(e) => Err(e)
        case Ok(body) => Prepend(body, ExpandFrom(s, j + 1))
    else Prepend([s[i]], ExpandFrom(s, i + 1))
  }

  function Expand(s: string): Result<string> {
    ExpandFrom(s, 0)
  }

  lemma PrependPrepend(a: string, b: string, r: Result<string>)
    ensures Prepend(a, Prepend(b, r)) == Prepend(a + b, r)
  {
    if r.Ok? {
      assert a + (b + r.value) == (a + b) + r.value;
    }
  }

  /** The scanner of the source: `i` walks the pattern, `j` looks for the
      closing bracket, `expanded` collects the output. */
  method ExpandCharacterClasses(regex: string) returns (r: Result<string>)
    ensures r == Expand(regex)
  {
    var i := 0;
    var expanded := "";
    PrependEmpty(ExpandFrom(regex, 0));
    while i < |regex|
      invariant 0 <= i <= |regex|
      invariant Expand(regex) == Prepend(expanded, ExpandFrom(regex, i))
    {
      if regex[i] == '[' {
        var j := i + 1;
        while j < |regex| && regex[j] != ']'
          invariant i + 1 <= j <= |regex|
          invariant CloseIndex(regex, j) == CloseIndex(regex, i + 1)
        {
          j := j + 1;
        }
        if j == |regex| {
          return Err(UnmatchedBracket);
        }
        var content := regex[i + 1..j];
        if '-' in content && |content| == 3 {
          if content[1] != '-' {
            return Err(InvalidCharacterClass);
          }
          PrependPrepend(expanded, RangeText(content[0], content[2]), ExpandFrom(regex, j + 1));
          expanded := expanded + RangeText(content[0], content[2]);
        } else {
          return Err(UnsupportedCharacterClass);
        }
        i := j + 1;
      } else {
        PrependPrepend(expanded, [regex[i]], ExpandFrom(regex, i + 1));
        expanded := expanded + [regex[i]];
        i := i + 1;
      }
    }
    assert ExpandFrom(regex, i) == Ok([]);
    assert expanded + [] == expanded;
    return Ok(expanded);
  }

  /** Characters outside brackets are copied unchanged and in order. */
  lemma {:induction false} CopyThrough(s: string, i: nat, k: nat)
    requires i <= k <= |s|
    requires forall m :: i <= m < k ==> s[m] != '['
    ensures ExpandFrom(s, i) == Prepend(s[i..k], ExpandFrom(s, k))
    decreases k - i
  {
    if i == k {
      PrependEmpty(ExpandFrom(s, k));
    } else {
      CopyThrough(s, i + 1, k);
      PrependPrepend([s[i]], s[i + 1..k], ExpandFrom(s, k));
      assert [s[i]] + s[i + 1..k] == s[i..k];
    }
  }

  lemma PrependEmpty(r: Result<string>)
    ensures Prepend([], r) == r
  {
    if r.Ok? {
      assert [] + r.value == r.value;
    }
  }

  /** A pattern without `[` is returned unchanged. */
  lemma NoBracketUnchanged(s: string)
    requires forall m :: 0 <= m < |s| ==> s[m] != '['
    ensures Expand(s) == Ok(s)
  {
    CopyThrough(s, 0, |s|);
    assert s[0..|s|] == s;
    assert s + [] == s;
  }

  /** Expanding an expansion that holds no `[` changes nothing. */
  lemma ExpandIdempotent(s: string, t: string)
    requires Expand(s) == Ok(t)
    requires forall m :: 0 <= m < |t| ==> t[m] != '['
    ensures Expand(Expand(s).value) == Expand(s)
  {
    NoBracketUnchanged(t);
  }

  /** A well-formed class `[x-y]` at position `i` is replaced by the
      alternation of `x..y`, and scanning resumes after the `]`. */
  lemma ClassExpansion(s: string, i: nat)
    requires i + 4 < |s|
    requires s[i] == '[' && s[i + 2] == '-' && s[i + 4] == ']'
    requires s[i + 1] != ']' && s[i + 3] != ']'
    ensures ExpandFrom(s, i) == Prepend(RangeText(s[i + 1], s[i + 3]), ExpandFrom(s, i + 5))
  {
    assert CloseIndex(s, i + 1) == i + 4;
    assert s[i + 1..i + 4] == [s[i + 1], s[i + 2], s[i + 3]];
  }

  /** A scan that meets no `]` from position `i` on fails with the
      unmatched-bracket error at the first `[` it reaches. */
  lemma {:induction false} UnmatchedBracketFails(s: string, i: nat, k: nat)
    requires i <= k < |s| && s[k] == '['
    requires forall m :: i <= m < |s| ==> s[m] != ']'
    ensures ExpandFrom(s, i) == Err(UnmatchedBracket)
    decreases k - i
  {
    if s[i] == '[' {
      assert CloseIndex(s, i + 1) == |s|;
    } else {
      UnmatchedBracketFails(s, i + 1, k);
    }
  }

  /** A pattern whose first `[` has no `]` after it fails with the
      unmatched-bracket error; a `]` before that `[` is copied like any other
      character. */
  lemma FirstBracketUnmatched(s: string, k: nat)
    requires k < |s| && s[k] == '['
    requires forall m :: 0 <= m < k ==> s[m] != '['
    requires forall m :: k < m < |s| ==> s[m] != ']'
    ensures Expand(s) == Err(UnmatchedBracket)
  {
    CopyThrough(s, 0, k);
    UnmatchedBracketFails(s, k, k);
  }

  lemma RangeExamples()
    ensures RangeText('a', 'c') == "(a|b|c)"
    ensures RangeText('c', 'a') == "()"
  {
    assert CodeRange(100, 99) == [];
    assert CodeRange(99, 99) == "c";
    assert CodeRange(98, 99) == "bc";
    assert CodeRange(97, 99) == "abc";
    assert Join("abc") == "a|b|c";
  }

  lemma ExpandExamples()
    ensures Expand("[a-c]") == Ok("(a|b|c)")
    ensures Expand("[c-a]") == Ok("()")
  {
    RangeExamples();
    ClassExpansion("[a-c]", 0);
    assert ExpandFrom("[a-c]", 5) == Ok([]);
    assert "(a|b|c)" + [] == "(a|b|c)";
    ClassExpansion("[c-a]", 0);
    assert ExpandFrom("[c-a]", 5) == Ok([]);
    assert "()" + [] == "()";
  }

  lemma SurroundedClass()
    ensures Expand("x[a-c]y") == Ok("x(a|b|c)y")
  {
    RangeExamples();
    var s := "x[a-c]y";
    ClassExpansion(s, 1);
    assert ExpandFrom(s, 6) == Ok("y") by {
      assert ExpandFrom(s, 7) == Ok([]);
      assert ['y'] + [] == "y";
    }
    assert ExpandFrom(s, 1) == Ok("(a|b|c)y") by {
      assert "(a|b|c)" + "y" == "(a|b|c)y";
    }
    assert ['x'] + "(a|b|c)y" == "x(a|b|c)y";
  }

  lemma ExpandErrorExamples()
    ensures Expand("[a-z") == Err(UnmatchedBracket)
    ensures Expand("[-ab]") == Err(InvalidCharacterClass)
    ensures Expand("[abc]") == Err(UnsupportedCharacterClass)
    ensures Expand("[a-bc]") == Err(UnsupportedCharacterClass)
  {
  }
}
