/** The Python `str` operations the GUI relies on, over `seq<char>`.

    Case mapping (`lower`, `upper`, `title`) covers the ASCII letters only;
    whitespace for `strip` is Python's `str.isspace` set. Every separator or
    search string the GUI passes is a non-empty literal, so the functions that
    need one require it. */
module PyStr {

  // ---------------------------------------------------------------------------
  // Characters

  predicate IsUpper(c: char) { 'A' <= c <= 'Z' }
  predicate IsLower(c: char) { 'a' <= c <= 'z' }
  predicate IsDigit(c: char) { '0' <= c <= '9' }
  predicate IsLetter(c: char) { IsUpper(c) || IsLower(c) }

  /** The characters `str.strip()` removes (Python's `str.isspace`). */
  predicate IsSpace(c: char) {
    || '\t' <= c <= '\r'
    || '\U{1c}' <= c <= '\U{1f}'
    || c == ' ' || c == '\U{85}' || c == '\U{a0}' || c == '\U{1680}'
    || '\U{2000}' <= c <= '\U{200a}'
    || c == '\U{2028}' || c == '\U{2029}' || c == '\U{202f}' || c == '\U{205f}' || c == '\U{3000}'
  }

  function UpperChar(c: char): (r: char)
    ensures IsLetter(c) ==> IsUpper(r)
    ensures !IsLetter(c) ==> r == c
    ensures IsUpper(c) ==> r == c
  {
    if IsLower(c) then (c as int - 32) as char else c
  }

  function LowerChar(c: char): (r: char)
    ensures IsLetter(c) ==> IsLower(r)
    ensures !IsLetter(c) ==> r == c
    ensures IsLower(c) ==> r == c
  {
    if IsUpper(c) then (c as int + 32) as char else c
  }

  lemma {:induction false} LowerOfUpper(c: char)
    requires IsLower(c)
    ensures LowerChar(UpperChar(c)) == c
  {
  }

  /** `s.lower()`. */
  function Lower(s: string): (r: string)
    ensures |r| == |s|
    ensures forall i :: 0 <= i < |s| ==> r[i] == LowerChar(s[i])
  {
    seq(|s|, i requires 0 <= i < |s| => LowerChar(s[i]))
  }

  lemma {:induction false} LowerAppend(a: string, b: string)
    ensures Lower(a + b) == Lower(a) + Lower(b)
  {
  }

  /** How `str.title()` maps one character, given whether it follows a letter:
      a letter is upper-cased at the start of a run of letters and lower-cased
      inside one; anything else is kept. */
  function TitleChar(c: char, afterLetter: bool): char {
    if !IsLetter(c) then c else if afterLetter then LowerChar(c) else UpperChar(c)
  }

  /** `str.title()` started in the given state (whether the text before `s`
      ended with a letter). */
  function TitleFrom(s: string, afterLetter: bool): (r: string)
    ensures |r| == |s|
    ensures forall i :: 0 <= i < |s| ==>
      r[i] == TitleChar(s[i], if i == 0 then afterLetter else IsLetter(s[i - 1]))
  {
    if s == [] then []
    else
      var rest := TitleFrom(s[1..], IsLetter(s[0]));
      assert forall i :: 1 <= i < |s| ==>
        rest[i - 1] == TitleChar(s[i], IsLetter(s[i - 1]));
      [TitleChar(s[0], afterLetter)] + rest
  }

  /** `s.title()`. */
  function Title(s: string): string {
    TitleFrom(s, false)
  }

  /** Title-casing a slice depends only on the character before it. */
  lemma {:induction false} TitleSlice(s: string, st: bool, a: nat, b: nat)
    requires a <= b <= |s|
    ensures TitleFrom(s, st)[a..b] == TitleFrom(s[a..b], if a == 0 then st else IsLetter(s[a - 1]))
  {
    var t := TitleFrom(s, st);
    var u := TitleFrom(s[a..b], if a == 0 then st else IsLetter(s[a - 1]));
    forall i | 0 <= i < b - a ensures t[a..b][i] == u[i] {
      assert t[a..b][i] == t[a + i];
      assert s[a..b][i] == s[a + i];
      if i > 0 {
        assert s[a..b][i - 1] == s[a + i - 1];
      }
    }
  }

  /** `title()` never creates or removes a non-letter. */
  lemma TitleKeepsNonLetters(s: string, st: bool, c: char)
    requires !IsLetter(c)
    ensures forall i :: 0 <= i < |s| ==> (TitleFrom(s, st)[i] == c <==> s[i] == c)
  {
  }

  // ---------------------------------------------------------------------------
  // Searching

  /** `sub` occurs in `s` starting at index `i`. */
  predicate OccursAt(s: string, sub: string, i: int) {
    0 <= i && i + |sub| <= |s| && s[i..i + |sub|] == sub
  }

  /** `sub in s`. */
  predicate Contains(s: string, sub: string) {
    exists i | 0 <= i <= |s| :: OccursAt(s, sub, i)
  }

  /** `s.find(sub)`: the first index where `sub` occurs, or -1. */
  function Find(s: string, sub: string): (r: int)
    ensures -1 <= r <= |s|
    ensures r >= 0 ==> OccursAt(s, sub, r)
  {
    FindFrom(s, sub, 0)
  }

  /** `find` returns the first occurrence, and finds one exactly when there
      is one. */
  lemma {:induction false} FindFirst(s: string, sub: string)
    ensures forall j :: 0 <= j && (Find(s, sub) < 0 || j < Find(s, sub)) ==> !OccursAt(s, sub, j)
    ensures Find(s, sub) >= 0 <==> Contains(s, sub)
  {
    FindFromFirst(s, sub, 0);
  }

  /** The scan behind `find`: the first occurrence at or after `i`. */
  function FindFrom(s: string, sub: string, i: nat): (r: int)
    requires i <= |s| + 1
    ensures -1 <= r <= |s|
    ensures r >= 0 ==> i <= r && OccursAt(s, sub, r)
    decreases |s| + 1 - i
  {
    if i + |sub| > |s| then -1
    else if s[i..i + |sub|] == sub then i
    else FindFrom(s, sub, i + 1)
  }

  /** The scan stops at the first occurrence at or after `i`. */
  lemma {:induction false} FindFromFirst(s: string, sub: string, i: nat)
    requires i <= |s| + 1
    ensures var r := FindFrom(s, sub, i);
      forall j :: i <= j && (r < 0 || j < r) ==> !OccursAt(s, sub, j)
    decreases |s| + 1 - i
  {
    if i + |sub| <= |s| && s[i..i + |sub|] != sub {
      FindFromFirst(s, sub, i + 1);
    }
  }

  lemma {:induction false} OccursAtPrefix(s: string, n: nat, sub: string, j: int)
    requires n <= |s|
    ensures OccursAt(s[..n], sub, j) <==> (OccursAt(s, sub, j) && j + |sub| <= n)
  {
    if 0 <= j && j + |sub| <= n {
      assert s[..n][j..j + |sub|] == s[j..j + |sub|];
    }
  }

  /** `s.rfind(sub)`: the last index where `sub` occurs, or -1. */
  function RFind(s: string, sub: string): (r: int)
    ensures -1 <= r <= |s|
    ensures r >= 0 ==> OccursAt(s, sub, r)
    ensures forall j :: r < j ==> !OccursAt(s, sub, j)
    decreases |s|
  {
    if |s| < |sub| then -1
    else if s[|s| - |sub|..] == sub then |s| - |sub|
    else if s == [] then -1
    else
      var k := RFind(s[..|s| - 1], sub);
      assert forall j :: OccursAt(s[..|s| - 1], sub, j) <==> (OccursAt(s, sub, j) && j + |sub| <= |s| - 1) by {
        forall j { OccursAtPrefix(s, |s| - 1, sub, j); }
      }
      k
  }

  // ---------------------------------------------------------------------------
  // Splitting, joining, replacing

  /** The first piece of a split, and the split of what follows it. */
  lemma {:induction false} SplitFirst(s: string, sep: string)
    requires sep != []
    ensures Find(s, sep) < 0 ==> Split(s, sep) == [s]
    ensures Find(s, sep) >= 0 ==>
      Split(s, sep) == [s[..Find(s, sep)]] + Split(s[Find(s, sep) + |sep|..], sep)
  {
  }

  /** With a single occurrence of `sep`, the split has two pieces, the
      second being everything after it. */
  lemma {:induction false} SplitOnce(s: string, sep: string)
    requires sep != [] && Count(s, sep) == 1
    ensures var k := Find(s, sep);
      0 <= k && k + |sep| <= |s| && !Contains(s[k + |sep|..], sep)
      && Split(s, sep) == [s[..k], s[k + |sep|..]]
  {
    CountFirst(s, sep);
    var k := Find(s, sep);
    var rest := s[k + |sep|..];
    CountNone(rest, sep);
    SplitAtLast(s, sep, k, rest);
  }

  /** With two occurrences of `sep`, the split is the piece before the
      first and the split of the rest, which holds one occurrence. */
  lemma {:induction false} SplitTwice(s: string, sep: string)
    requires sep != [] && Count(s, sep) == 2
    ensures var k := Find(s, sep);
      0 <= k && k + |sep| <= |s|
      && Count(s[k + |sep|..], sep) == 1
      && Split(s, sep) == [s[..k]] + Split(s[k + |sep|..], sep)
  {
    CountFirst(s, sep);
    SplitFirst(s, sep);
  }

  /** Splitting at an occurrence after which nothing splits gives two
      pieces. */
  lemma {:induction false} SplitAtLast(s: string, sep: string, k: int, rest: string)
    requires sep != [] && k == Find(s, sep) && 0 <= k && k + |sep| <= |s|
    requires rest == s[k + |sep|..] && Split(rest, sep) == [rest]
    ensures Split(s, sep) == [s[..k], rest]
  {
    SplitFirst(s, sep);
  }

  /** Counting past the first occurrence. */
  lemma {:induction false} CountFirst(s: string, sep: string)
    requires sep != [] && Count(s, sep) >= 1
    ensures Find(s, sep) >= 0 && Find(s, sep) + |sep| <= |s|
    ensures Count(s, sep) == 1 + Count(s[Find(s, sep) + |sep|..], sep)
  {
    CountStep(s, sep);
  }

  /** No occurrence: nothing to find and nothing to split at. */
  lemma {:induction false} CountNone(s: string, sep: string)
    requires sep != [] && Count(s, sep) == 0
    ensures Find(s, sep) < 0 && !Contains(s, sep) && Split(s, sep) == [s]
  {
    CountStep(s, sep);
    FindFirst(s, sep);
  }

  /** A character occurs as a one-character substring exactly when it is in
      the string. */
  lemma {:induction false} ContainsChar(s: string, c: char)
    ensures Contains(s, [c]) <==> c in s
  {
    FindChar(s, c);
  }

  /** Whatever is in a substring is in the string. */
  lemma {:induction false} ContainsCharOfSub(s: string, sub: string, c: char)
    requires Contains(s, sub) && c in sub
    ensures c in s
  {
    var i :| 0 <= i <= |s| && OccursAt(s, sub, i);
    var j :| 0 <= j < |sub| && sub[j] == c;
    assert s[i..i + |sub|][j] == s[i + j];
  }

  /** `sep.join(parts)`. */
  function Join(parts: seq<string>, sep: string): string {
    if |parts| == 0 then []
    else if |parts| == 1 then parts[0]
    else parts[0] + sep + Join(parts[1..], sep)
  }

  /** `s.count(sub)`: the number of non-overlapping occurrences, scanning left
      to right. */
  function Count(s: string, sub: string): nat
    requires sub != []
    decreases |s|
  {
    var k := Find(s, sub);
    if k < 0 then 0 else 1 + Count(s[k + |sub|..], sub)
  }

  /** Nothing is counted when `sub` does not occur; otherwise the first
      occurrence counts and the scan resumes after it. */
  lemma {:induction false} CountStep(s: string, sub: string)
    requires sub != []
    ensures Find(s, sub) < 0 ==> Count(s, sub) == 0
    ensures Find(s, sub) >= 0 ==>
      (Find(s, sub) + |sub| <= |s| && Count(s, sub) == 1 + Count(s[Find(s, sub) + |sub|..], sub))
  {
  }

  /** `s.split(sep)`: the pieces between the non-overlapping occurrences of
      `sep`, scanning left to right. */
  function Split(s: string, sep: string): (r: seq<string>)
    requires sep != []
    ensures |r| >= 1
    decreases |s|
  {
    var k := Find(s, sep);
    if k < 0 then [s] else [s[..k]] + Split(s[k + |sep|..], sep)
  }

  /** A split has one more piece than there are separators. */
  lemma {:induction false} SplitCount(s: string, sep: string)
    requires sep != []
    ensures |Split(s, sep)| == Count(s, sep) + 1
    decreases |s|
  {
    var k := Find(s, sep);
    if k < 0 {
      CountStep(s, sep);
      SplitFirst(s, sep);
    } else {
      var rest := s[k + |sep|..];
      SplitCount(rest, sep);
      SplitCountStep(s, sep, k, rest);
    }
  }

  lemma {:induction false} SplitCountStep(s: string, sep: string, k: int, rest: string)
    requires sep != [] && k == Find(s, sep) && 0 <= k && k + |sep| <= |s| && rest == s[k + |sep|..]
    requires |Split(rest, sep)| == Count(rest, sep) + 1
    ensures |Split(s, sep)| == Count(s, sep) + 1
  {
    CountStep(s, sep);
    SplitFirst(s, sep);
  }

  /** No piece of a split holds the separator. */
  lemma {:induction false} SplitPiecesFree(s: string, sep: string)
    requires sep != []
    ensures forall i :: 0 <= i < |Split(s, sep)| ==> !Contains(Split(s, sep)[i], sep)
    decreases |s|
  {
    var k := Find(s, sep);
    FindFirst(s, sep);
    if k >= 0 {
      SplitPiecesFree(s[k + |sep|..], sep);
      forall j | 0 <= j <= k ensures !OccursAt(s[..k], sep, j) {
        OccursAtPrefix(s, k, sep, j);
      }
    }
  }

  /** Joining the pieces of a split with its separator gives the string back. */
  lemma {:induction false} JoinSplit(s: string, sep: string)
    requires sep != []
    ensures Join(Split(s, sep), sep) == s
    decreases |s|
  {
    var k := Find(s, sep);
    if k >= 0 {
      var rest := Split(s[k + |sep|..], sep);
      JoinSplit(s[k + |sep|..], sep);
      assert Split(s, sep) == [s[..k]] + rest;
      assert ([s[..k]] + rest)[1..] == rest;
      assert s == s[..k] + sep + s[k + |sep|..];
    }
  }

  lemma {:induction false} JoinCons(p: string, ps: seq<string>, sep: string)
    ensures Join([p] + ps, sep) == if ps == [] then p else p + sep + Join(ps, sep)
  {
    if ps != [] {
      assert ([p] + ps)[1..] == ps;
    }
  }

  /** `s.replace(target, replacement)`, which for a non-empty `target` Python
      defines as `replacement.join(s.split(target))`. */
  function Replace(s: string, target: string, replacement: string): string
    requires target != []
  {
    Join(Split(s, target), replacement)
  }

  /** `s.replace(sub, "")`: cut at each occurrence, scanning left to right;
      `RemoveAllIsReplace` ties it to `Replace`. */
  function RemoveAll(s: string, sub: string): string
    requires sub != []
    decreases |s|
  {
    var k := Find(s, sub);
    if k < 0 then s else s[..k] + RemoveAll(s[k + |sub|..], sub)
  }

  /** Removing is replacing by the empty string. */
  lemma {:induction false} RemoveAllIsReplace(s: string, sub: string)
    requires sub != []
    ensures RemoveAll(s, sub) == Replace(s, sub, [])
    decreases |s|
  {
    SplitFirst(s, sub);
    var k := Find(s, sub);
    if k < 0 {
      RemoveAllStep(s, sub);
    } else {
      RemoveAllAt(s, sub, k);
      var front, rest := s[..k], s[k + |sub|..];
      RemoveAllCut(s, sub, k, front, rest);
      ReplaceStep(s, sub, front, rest);
      RemoveAllIsReplace(rest, sub);
    }
  }

  /** `s.replace(sub, "")` when `s` splits into `front` and the pieces of
      `rest`. */
  lemma {:induction false} ReplaceStep(s: string, sub: string, front: string, rest: string)
    requires sub != [] && Split(s, sub) == [front] + Split(rest, sub)
    ensures Replace(s, sub, []) == front + Replace(rest, sub, [])
  {
    var pieces := Split(rest, sub);
    JoinCons(front, pieces, []);
    assert front + [] + Join(pieces, []) == front + Join(pieces, []);
  }

  // ---------------------------------------------------------------------------
  // Occurrences across a concatenation

  /** No occurrence of `sub` in `a + b` can span the point where `a` meets
      `b`: the last character of `a` is not in `sub`, or the first character
      of `b` occurs in `sub` at most as its first character. */
  predicate NoStraddle(a: string, b: string, sub: string) {
    a == [] || b == [] || sub == [] || a[|a| - 1] !in sub || b[0] !in sub[1..]
  }

  /** An occurrence in `a + b` lies wholly in `a` or wholly in `b`. */
  lemma {:induction false} OccursAcross(a: string, b: string, sub: string, i: int)
    requires sub != [] && NoStraddle(a, b, sub) && OccursAt(a + b, sub, i)
    ensures (i + |sub| <= |a| && OccursAt(a, sub, i)) || (i >= |a| && OccursAt(b, sub, i - |a|))
  {
    var s := a + b;
    if i + |sub| <= |a| {
      assert s[i..i + |sub|] == a[i..i + |sub|];
    } else if i >= |a| {
      assert s[i..i + |sub|] == b[i - |a|..i - |a| + |sub|];
    } else {
      StraddleChars(a, b, sub, i);
      assert false;
    }
  }

  /** An occurrence spanning the cut holds the last character of `a`, and
      the first of `b` past its own first position. */
  lemma {:induction false} StraddleChars(a: string, b: string, sub: string, i: int)
    requires OccursAt(a + b, sub, i) && i < |a| < i + |sub|
    ensures a[|a| - 1] in sub && b[0] in sub[1..]
  {
    var s := a + b;
    assert sub[|a| - 1 - i] == s[|a| - 1] == a[|a| - 1];
    assert sub[1..][|a| - i - 1] == s[|a|] == b[0];
  }

  /** An occurrence in `b` is one in `a + b`, shifted by `|a|`. */
  lemma {:induction false} OccursShifted(a: string, b: string, sub: string, j: int)
    requires OccursAt(b, sub, j)
    ensures OccursAt(a + b, sub, |a| + j)
  {
    assert (a + b)[|a| + j..|a| + j + |sub|] == b[j..j + |sub|];
  }

  /** Without a straddling occurrence, `a + b` holds `sub` exactly when `a`
      or `b` does. */
  lemma {:induction false} ContainsAppend(a: string, b: string, sub: string)
    requires sub != [] && NoStraddle(a, b, sub)
    ensures Contains(a + b, sub) <==> Contains(a, sub) || Contains(b, sub)
  {
    if Contains(a + b, sub) {
      var i :| 0 <= i <= |a + b| && OccursAt(a + b, sub, i);
      OccursAcross(a, b, sub, i);
      if i >= |a| {
        assert 0 <= i - |a| <= |b|;
      }
    }
    if Contains(a, sub) {
      var i :| 0 <= i <= |a| && OccursAt(a, sub, i);
      assert (a + b)[i..i + |sub|] == a[i..i + |sub|];
      assert OccursAt(a + b, sub, i);
    }
    if Contains(b, sub) {
      var j :| 0 <= j <= |b| && OccursAt(b, sub, j);
      OccursShifted(a, b, sub, j);
    }
  }

  /** A string lacking some character of `sub` does not hold `sub`. */
  lemma {:induction false} NotContainsChar(s: string, sub: string, c: char)
    requires c in sub && c !in s
    ensures !Contains(s, sub)
  {
    if Contains(s, sub) {
      ContainsCharOfSub(s, sub, c);
    }
  }

  /** When `a` does not hold `sub`, `find` in `a + b` finds the first
      occurrence in `b`, shifted by `|a|`. */
  lemma {:induction false} FindAppend(a: string, b: string, sub: string)
    requires sub != [] && NoStraddle(a, b, sub) && !Contains(a, sub)
    ensures Find(a + b, sub) == if Find(b, sub) < 0 then -1 else |a| + Find(b, sub)
  {
    FindFirst(a + b, sub);
    FindFirst(b, sub);
    var r := Find(a + b, sub);
    var q := Find(b, sub);
    if r >= 0 {
      OccursAcross(a, b, sub, r);
      if r + |sub| <= |a| {
        assert Contains(a, sub);
      }
      assert OccursAt(b, sub, r - |a|);
      OccursShifted(a, b, sub, q);
    } else if q >= 0 {
      OccursShifted(a, b, sub, q);
    }
  }

  /** `find` of a string in text that starts with it is 0. */
  lemma {:induction false} FindAtStart(sub: string, rest: string)
    ensures Find(sub + rest, sub) == 0
  {
    assert (sub + rest)[0..|sub|] == sub;
  }

  /** An occurrence in `a` is found in `a + b` where it is found in `a`. */
  lemma {:induction false} FindWithin(a: string, b: string, sub: string)
    requires Find(a, sub) >= 0
    ensures Find(a + b, sub) == Find(a, sub)
  {
    var k := Find(a, sub);
    FindFirst(a, sub);
    FindFirst(a + b, sub);
    assert (a + b)[k..k + |sub|] == a[k..k + |sub|];
    assert OccursAt(a + b, sub, k);
    var r := Find(a + b, sub);
    assert 0 <= r <= k;
    if r < k {
      assert (a + b)[r..r + |sub|] == a[r..r + |sub|];
      assert OccursAt(a, sub, r);
    }
  }

  /** `replace(sub, "")` cuts at the first occurrence and carries on after
      it. */
  lemma {:induction false} RemoveAllStep(s: string, sub: string)
    requires sub != []
    ensures Find(s, sub) < 0 ==> RemoveAll(s, sub) == s
    ensures Find(s, sub) >= 0 ==>
      Find(s, sub) + |sub| <= |s|
      && RemoveAll(s, sub) == s[..Find(s, sub)] + RemoveAll(s[Find(s, sub) + |sub|..], sub)
  {
  }

  /** Nothing to remove. */
  lemma {:induction false} RemoveAllAbsent(s: string, sub: string)
    requires sub != [] && !Contains(s, sub)
    ensures RemoveAll(s, sub) == s
  {
    FindFirst(s, sub);
    RemoveAllStep(s, sub);
  }

  /** Text that starts with `sub` loses that occurrence first. */
  lemma {:induction false} RemoveAllLead(sub: string, rest: string)
    requires sub != []
    ensures RemoveAll(sub + rest, sub) == RemoveAll(rest, sub)
  {
    FindAtStart(sub, rest);
    RemoveAllStep(sub + rest, sub);
    assert (sub + rest)[|sub|..] == rest;
  }

  /** Without a straddling occurrence, removing from `a + b` removes from
      each side. */
  lemma {:induction false} RemoveAllAppend(a: string, b: string, sub: string)
    requires sub != [] && NoStraddle(a, b, sub)
    ensures RemoveAll(a + b, sub) == RemoveAll(a, sub) + RemoveAll(b, sub)
    decreases |a|, 1
  {
    if Find(a, sub) < 0 {
      RemoveAllAppendClear(a, b, sub);
    } else {
      RemoveAllAppendFound(a, b, sub);
    }
  }

  /** `RemoveAllAppend` when `a` holds an occurrence: cut there and carry on
      with the rest of `a`. */
  lemma {:induction false} RemoveAllAppendFound(a: string, b: string, sub: string)
    requires sub != [] && NoStraddle(a, b, sub) && Find(a, sub) >= 0
    ensures RemoveAll(a + b, sub) == RemoveAll(a, sub) + RemoveAll(b, sub)
    decreases |a|, 0
  {
    var k := Find(a, sub);
    NoStraddleSuffix(a, k + |sub|, b, sub);
    RemoveAllAppend(a[k + |sub|..], b, sub);
    RemoveAllAppendFirst(a, b, sub);
  }

  /** Dropping a prefix of `a` keeps the join with `b` free of straddling
      occurrences. */
  lemma {:induction false} NoStraddleSuffix(a: string, n: nat, b: string, sub: string)
    requires n <= |a| && NoStraddle(a, b, sub)
    ensures NoStraddle(a[n..], b, sub)
  {
    if n < |a| {
      assert a[n..][|a| - n - 1] == a[|a| - 1];
    }
  }

  /** `RemoveAllAppend` when `a` holds no occurrence. */
  lemma {:induction false} RemoveAllAppendClear(a: string, b: string, sub: string)
    requires sub != [] && NoStraddle(a, b, sub) && Find(a, sub) < 0
    ensures RemoveAll(a + b, sub) == RemoveAll(a, sub) + RemoveAll(b, sub)
  {
    FindFirst(a, sub);
    RemoveAllStep(a, sub);
    FindAppend(a, b, sub);
    if Find(b, sub) < 0 {
      RemoveAllStep(b, sub);
      RemoveAllStep(a + b, sub);
    } else {
      RemoveAllAppendClearAt(a, b, sub, Find(b, sub));
    }
  }

  /** `RemoveAllAppendClear` when the first occurrence is at `q` in `b`. */
  lemma {:induction false} RemoveAllAppendClearAt(a: string, b: string, sub: string, q: int)
    requires sub != [] && RemoveAll(a, sub) == a
    requires q >= 0 && Find(b, sub) == q && Find(a + b, sub) == |a| + q
    ensures RemoveAll(a + b, sub) == RemoveAll(a, sub) + RemoveAll(b, sub)
  {
    var ab := a + b;
    RemoveAllAt(b, sub, q);
    var z := RemoveAll(b[q + |sub|..], sub);
    assert ab[..|a| + q] == a + b[..q];
    assert ab[|a| + q + |sub|..] == b[q + |sub|..];
    RemoveAllCut(ab, sub, |a| + q, a + b[..q], b[q + |sub|..]);
    ConcatRegroup(a + RemoveAll(b, sub), a, b[..q], z, RemoveAll(ab, sub));
  }

  /** `RemoveAllStep` at a known first occurrence `k`. */
  lemma {:induction false} RemoveAllAt(s: string, sub: string, k: int)
    requires sub != [] && Find(s, sub) == k && k >= 0
    ensures k + |sub| <= |s|
    ensures RemoveAll(s, sub) == s[..k] + RemoveAll(s[k + |sub|..], sub)
  {
    RemoveAllStep(s, sub);
    var r := RemoveAll(s, sub);
    assert r == s[..Find(s, sub)] + RemoveAll(s[Find(s, sub) + |sub|..], sub);
  }

  /** `RemoveAllAt` with the text before and after the occurrence named. */
  lemma {:induction false} RemoveAllCut(s: string, sub: string, k: int, front: string, back: string)
    requires sub != [] && Find(s, sub) == k && k >= 0
    requires k + |sub| <= |s| && s[..k] == front && s[k + |sub|..] == back
    ensures RemoveAll(s, sub) == front + RemoveAll(back, sub)
  {
    RemoveAllAt(s, sub, k);
  }

  /** `RemoveAllAppend` when `a` holds an occurrence, given the result for
      what follows its first one. */
  lemma {:induction false} RemoveAllAppendFirst(a: string, b: string, sub: string)
    requires sub != [] && Find(a, sub) >= 0
    requires var a2 := a[Find(a, sub) + |sub|..];
      RemoveAll(a2 + b, sub) == RemoveAll(a2, sub) + RemoveAll(b, sub)
    ensures RemoveAll(a + b, sub) == RemoveAll(a, sub) + RemoveAll(b, sub)
  {
    var k := Find(a, sub);
    FindWithin(a, b, sub);
    RemoveAllAt(a, sub, k);
    var front, a2 := a[..k], a[k + |sub|..];
    CutAppend(a, b, k, k + |sub|);
    RemoveAllCut(a + b, sub, k, front, a2 + b);
    RemoveAllCut(a, sub, k, front, a2);
    ConcatRegroup(RemoveAll(a + b, sub), front, RemoveAll(a2, sub), RemoveAll(b, sub), RemoveAll(a, sub) + RemoveAll(b, sub));
  }

  /** Cutting `a + b` inside `a`. */
  lemma CutAppend(a: string, b: string, i: nat, j: nat)
    requires i <= j <= |a|
    ensures (a + b)[..i] == a[..i] && (a + b)[j..] == a[j..] + b
  {
  }

  /** `x + (y + z)` regrouped. */
  lemma {:induction false} ConcatRegroup(r: string, x: string, y: string, z: string, t: string)
    requires r == x + (y + z) && t == (x + y) + z
    ensures r == t
  {
  }

  // ---------------------------------------------------------------------------
  // One element of a join

  /** The text of `sep.join(ms)` before element `k`. */
  function JoinBefore(ms: seq<string>, sep: string, k: nat): string
    requires k <= |ms|
  {
    if k == 0 then [] else Join(ms[..k], sep) + sep
  }

  /** The text of `sep.join(ms)` after element `k`. */
  function JoinAfter(ms: seq<string>, sep: string, k: nat): string
    requires k < |ms|
  {
    if k + 1 == |ms| then [] else sep + Join(ms[k + 1..], sep)
  }

  /** A join is the text before element `k`, the element, and the text
      after it. */
  lemma {:induction false} JoinAround(ms: seq<string>, sep: string, k: nat)
    requires k < |ms|
    ensures Join(ms, sep) == JoinBefore(ms, sep, k) + ms[k] + JoinAfter(ms, sep, k)
    decreases k
  {
    if k == 0 {
      assert ms[1..] == ms[k + 1..];
    } else {
      var tail := ms[1..];
      JoinAround(tail, sep, k - 1);
      assert tail[k - 1] == ms[k];
      assert tail[k..] == ms[k + 1..];
      assert JoinAfter(tail, sep, k - 1) == JoinAfter(ms, sep, k);
      JoinBeforeCons(ms, sep, k);
      ConcatRegroup(Join(ms, sep), ms[0] + sep, JoinBefore(tail, sep, k - 1), ms[k] + JoinAfter(ms, sep, k),
        JoinBefore(ms, sep, k) + (ms[k] + JoinAfter(ms, sep, k)));
    }
  }

  lemma {:induction false} JoinBeforeCons(ms: seq<string>, sep: string, k: nat)
    requires 0 < k < |ms|
    ensures Join(ms, sep) == (ms[0] + sep) + Join(ms[1..], sep)
    ensures JoinBefore(ms, sep, k) == (ms[0] + sep) + JoinBefore(ms[1..], sep, k - 1)
  {
    var pre := ms[..k];
    assert pre[0] == ms[0];
    if k == 1 {
      assert pre == [ms[0]];
    } else {
      assert pre[1..] == ms[1..][..k - 1];
    }
  }

  /** The text before element `k + 1` is the text before element `k`, the
      element and a separator. */
  lemma {:induction false} JoinBeforeNext(ms: seq<string>, sep: string, k: nat)
    requires k < |ms|
    ensures JoinBefore(ms, sep, k + 1) == JoinBefore(ms, sep, k) + ms[k] + sep
  {
    JoinSnoc(ms[..k], ms[k], sep);
    assert ms[..k + 1] == ms[..k] + [ms[k]];
  }

  /** Joining with one more element at the end. */
  lemma {:induction false} JoinSnoc(ps: seq<string>, p: string, sep: string)
    ensures Join(ps + [p], sep) == if ps == [] then p else Join(ps, sep) + sep + p
    decreases |ps|
  {
    if |ps| == 1 {
      assert (ps + [p])[1..] == [p];
    } else if |ps| > 1 {
      JoinSnoc(ps[1..], p, sep);
      assert (ps + [p])[1..] == ps[1..] + [p];
    }
  }

  /** The text before element `k` holds `w` only when an earlier element
      does, when the separator is a character outside `w`. */
  lemma {:induction false} JoinBeforeClear(ms: seq<string>, c: char, k: nat, w: string)
    requires k <= |ms| && w != [] && c !in w
    requires forall j :: 0 <= j < k ==> !Contains(ms[j], w)
    ensures !Contains(JoinBefore(ms, [c], k), w)
    ensures k > 0 ==> JoinBefore(ms, [c], k)[|JoinBefore(ms, [c], k)| - 1] == c
    decreases k
  {
    if k > 0 {
      JoinBeforeClear(ms, c, k - 1, w);
      JoinBeforeNext(ms, [c], k - 1);
      ClearThenSeparator(JoinBefore(ms, [c], k - 1), ms[k - 1], c, w);
    }
  }

  /** One more element and separator keep `w` out of the text. */
  lemma {:induction false} ClearThenSeparator(pre: string, m: string, c: char, w: string)
    requires w != [] && c !in w && !Contains(pre, w) && !Contains(m, w)
    requires pre != [] ==> pre[|pre| - 1] == c
    ensures !Contains(pre + m + [c], w) && (pre + m + [c])[|pre + m + [c]| - 1] == c
  {
    ContainsAppend(pre, m, w);
    ContainsAppend(pre + m, [c], w);
    NotContainsChar([c], w, w[0]);
  }

  /** Removing `sub` from a join at a character outside `sub` removes it
      from each element. */
  lemma {:induction false} RemoveAllJoin(ms: seq<string>, ns: seq<string>, c: char, sub: string)
    requires sub != [] && c !in sub && |ms| == |ns|
    requires forall j :: 0 <= j < |ms| ==> RemoveAll(ms[j], sub) == ns[j]
    ensures RemoveAll(Join(ms, [c]), sub) == Join(ns, [c])
    decreases |ms|
  {
    if |ms| == 1 {
    } else if |ms| > 1 {
      RemoveAllJoin(ms[1..], ns[1..], c, sub);
      var rest := Join(ms[1..], [c]);
      RemoveAllAppend(ms[0] + [c], rest, sub);
      RemoveAllAppend(ms[0], [c], sub);
      NotContainsChar([c], sub, sub[0]);
      RemoveAllAbsent([c], sub);
    }
  }

  // ---------------------------------------------------------------------------
  // Single-character separators

  /** `s` with every `c` dropped: the reference meaning of removing a
      character. */
  function Without(s: string, c: char): (r: string)
    ensures c !in r
    ensures |r| <= |s|
  {
    if s == [] then [] else (if s[0] == c then [] else [s[0]]) + Without(s[1..], c)
  }

  lemma {:induction false} WithoutAppend(a: string, b: string, c: char)
    ensures Without(a + b, c) == Without(a, c) + Without(b, c)
    decreases |a|
  {
    if a != [] {
      assert (a + b)[0] == a[0];
      assert (a + b)[1..] == a[1..] + b;
      WithoutAppend(a[1..], b, c);
      var h := if a[0] == c then [] else [a[0]];
      assert Without(a + b, c) == h + Without(a[1..] + b, c);
      assert Without(a, c) == h + Without(a[1..], c);
      assert h + (Without(a[1..], c) + Without(b, c)) == (h + Without(a[1..], c)) + Without(b, c);
    } else {
      assert a + b == b;
    }
  }

  lemma {:induction false} WithoutAbsent(s: string, c: char)
    requires c !in s
    ensures Without(s, c) == s
    decreases |s|
  {
    if s != [] {
      WithoutAbsent(s[1..], c);
    }
  }

  lemma {:induction false} OccursCharAt(s: string, c: char, j: int)
    ensures OccursAt(s, [c], j) <==> 0 <= j < |s| && s[j] == c
  {
    if 0 <= j < |s| {
      assert s[j..j + 1] == [s[j]];
    }
  }

  /** Finding a single character: -1 exactly when it is absent, otherwise the
      index of its first occurrence. */
  lemma {:induction false} FindChar(s: string, c: char)
    ensures Find(s, [c]) < 0 <==> c !in s
    ensures Find(s, [c]) >= 0 ==> Find(s, [c]) < |s| && s[Find(s, [c])] == c && c !in s[..Find(s, [c])]
  {
    FindFirst(s, [c]);
    forall j ensures OccursAt(s, [c], j) <==> 0 <= j < |s| && s[j] == c {
      OccursCharAt(s, c, j);
    }
  }

  /** Splitting at the first separator when the prefix holds none. */
  lemma {:induction false} SplitAtFirst(a: string, c: char, b: string)
    requires c !in a
    ensures Split(a + [c] + b, [c]) == [a] + Split(b, [c])
  {
    var s := a + [c] + b;
    FindChar(s, c);
    var k := Find(s, [c]);
    assert s[|a|] == c;
    assert k == |a|;
    assert s[..k] == a;
    assert s[k + 1..] == b;
  }

  lemma {:induction false} SplitAbsent(s: string, c: char)
    requires c !in s
    ensures Split(s, [c]) == [s]
  {
    FindChar(s, c);
  }

  /** Splitting a join at a separator none of the parts holds gives the parts
      back: the other half of `JoinSplit`. */
  lemma {:induction false} SplitJoin(parts: seq<string>, c: char)
    requires parts != []
    requires forall i :: 0 <= i < |parts| ==> c !in parts[i]
    ensures Split(Join(parts, [c]), [c]) == parts
    decreases |parts|
  {
    if |parts| == 1 {
      SplitAbsent(parts[0], c);
    } else {
      SplitJoin(parts[1..], c);
      SplitAtFirst(parts[0], c, Join(parts[1..], [c]));
      assert parts == [parts[0]] + parts[1..];
    }
  }

  /** Removing every occurrence of a character is dropping it. */
  lemma {:induction false} RemoveAllChar(s: string, c: char)
    ensures RemoveAll(s, [c]) == Without(s, c)
    decreases |s|
  {
    FindChar(s, c);
    var k := Find(s, [c]);
    if k < 0 {
      WithoutAbsent(s, c);
    } else {
      var front, rest := s[..k], s[k + 1..];
      assert RemoveAll(s, [c]) == front + RemoveAll(rest, [c]);
      Around(s, k);
      RemoveAllChar(rest, c);
      WithoutCut(front, c, rest);
    }
  }

  /** `s` cut around position `k`. */
  lemma Around(s: string, k: nat)
    requires k < |s|
    ensures s == s[..k] + [s[k]] + s[k + 1..]
  {
  }

  /** Dropping `c` from text whose first `c` follows `a`. */
  lemma {:induction false} WithoutCut(a: string, c: char, b: string)
    requires c !in a
    ensures Without(a + [c] + b, c) == a + Without(b, c)
  {
    assert Without([c], c) == [] + Without([], c);
    WithoutAppend(a, [c], c);
    WithoutAbsent(a, c);
    assert Without(a + [c], c) == a + [];
    assert a + [] == a;
    WithoutAppend(a + [c], b, c);
  }

  // ---------------------------------------------------------------------------
  // Stripping and slicing

  function LeadingSpace(s: string): (n: nat)
    ensures n <= |s|
    ensures forall i :: 0 <= i < n ==> IsSpace(s[i])
    ensures n < |s| ==> !IsSpace(s[n])
  {
    if s == [] || !IsSpace(s[0]) then 0 else 1 + LeadingSpace(s[1..])
  }

  function TrailingSpace(s: string): (n: nat)
    ensures n <= |s|
    ensures forall i :: |s| - n <= i < |s| ==> IsSpace(s[i])
    ensures n < |s| ==> !IsSpace(s[|s| - n - 1])
  {
    if s == [] || !IsSpace(s[|s| - 1]) then 0 else 1 + TrailingSpace(s[..|s| - 1])
  }

  /** `s.strip()`: the longest infix that neither starts nor ends with
      whitespace. */
  function Strip(s: string): (r: string)
    ensures r == [] <==> forall i :: 0 <= i < |s| ==> IsSpace(s[i])
    ensures r != [] ==> !IsSpace(r[0]) && !IsSpace(r[|r| - 1])
    ensures LeadingSpace(s) + |r| <= |s| && r == s[LeadingSpace(s)..LeadingSpace(s) + |r|]
    ensures forall i :: 0 <= i < LeadingSpace(s) ==> IsSpace(s[i])
    ensures forall i :: LeadingSpace(s) + |r| <= i < |s| ==> IsSpace(s[i])
  {
    var a := LeadingSpace(s);
    if a == |s| then [] else s[a..|s| - TrailingSpace(s)]
  }

  /** A Python slice bound: negative counts from the end, then clamped. */
  function SliceBound(i: int, n: nat): (r: nat)
    ensures r <= n
    ensures 0 <= i <= n ==> r == i
  {
    if i < 0 then (if i + n < 0 then 0 else i + n)
    else if i > n then n
    else i
  }

  /** `s[start:stop]`. */
  function Slice(s: string, start: int, stop: int): (r: string)
    ensures 0 <= start <= stop <= |s| ==> r == s[start..stop]
    ensures |r| <= |s|
  {
    var lo := SliceBound(start, |s|);
    var hi := SliceBound(stop, |s|);
    if lo < hi then s[lo..hi] else []
  }
}
