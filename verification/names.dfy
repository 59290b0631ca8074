/** Tool-name conversions between snake_case, CamelCase and Title Case
    (`to_camelcase`, `to_label`, `to_snakecase`). */
module Names {
  import opened PyStr

  // ---------------------------------------------------------------------------
  // snake_case to CamelCase and to a label

  /** The `_`-separated segments of a name, each title-cased. */
  function TitledSegments(name: string): (r: seq<string>)
    ensures |r| == |Split(name, "_")|
    ensures forall i :: 0 <= i < |r| ==> r[i] == Title(Split(name, "_")[i])
  {
    var segs := Split(name, "_");
    seq(|segs|, i requires 0 <= i < |segs| => Title(segs[i]))
  }

  /** `to_camelcase`: the title-cased segments, concatenated. Since `_` ends
      a word for `title()`, this is the whole name title-cased with every
      `_` dropped. */
  function ToCamelCase(name: string): (r: string)
    ensures r == Without(Title(name), '_')
  {
    TitleSplit(name);
    RemoveAllIsReplace(Title(name), "_");
    RemoveAllChar(Title(name), '_');
    Join(TitledSegments(name), "")
  }

  /** `to_label`: the title-cased segments, joined by spaces. The label keeps
      the name's length: each `_` becomes a space and every other character
      is title-cased in place. */
  function ToLabel(name: string): (r: string)
    ensures |r| == |name|
    ensures forall i :: 0 <= i < |name| ==> r[i] == if name[i] == '_' then ' ' else Title(name)[i]
  {
    TitleSplit(name);
    ReplaceCharByChar(Title(name), '_', ' ');
    TitleKeepsNonLetters(name, false, '_');
    Join(TitledSegments(name), " ")
  }

  /** Title-casing around an underscore: `_` is not a letter, so the text
      after it is title-cased as if it started the string. */
  lemma TitleAroundUnderscore(name: string, k: nat)
    requires k < |name| && name[k] == '_'
    ensures Title(name) == Title(name[..k]) + "_" + Title(name[k + 1..])
  {
    var t := TitleFrom(name, false);
    TitleKeepsNonLetters(name, false, '_');
    assert t[k] == '_';
    TitleSlice(name, false, 0, k);
    assert name[0..k] == name[..k];
    TitleSlice(name, false, k + 1, |name|);
    assert name[k + 1..|name|] == name[k + 1..];
    ThreeParts(t, k);
  }

  /** A string is what comes before position `k`, the character at `k` and
      what follows it. */
  lemma ThreeParts(t: string, k: nat)
    requires k < |t|
    ensures t == t[0..k] + [t[k]] + t[k + 1..|t|]
  {
  }

  /** Title-casing commutes with splitting at `_`, because `_` is not a letter
      and so ends a word for `title()` exactly as the split does. */
  lemma {:induction false} TitleSplit(name: string)
    ensures Split(Title(name), "_") == TitledSegments(name)
    decreases |name|
  {
    FindChar(name, '_');
    var k := Find(name, "_");
    if k < 0 {
      TitleKeepsNonLetters(name, false, '_');
      assert '_' !in Title(name);
      SplitAbsent(Title(name), '_');
      SplitAbsent(name, '_');
    } else {
      TitleSplit(name[k + 1..]);
      SplitTitleAt(name, k);
      TitledSegmentsAt(name, k);
    }
  }

  /** Splitting the title-cased name at its first underscore. */
  lemma SplitTitleAt(name: string, k: nat)
    requires k < |name| && name[k] == '_' && '_' !in name[..k]
    ensures Split(Title(name), "_") == [Title(name[..k])] + Split(Title(name[k + 1..]), "_")
  {
    TitleAroundUnderscore(name, k);
    TitleKeepsNonLetters(name[..k], false, '_');
    assert '_' !in Title(name[..k]);
    SplitAtFirst(Title(name[..k]), '_', Title(name[k + 1..]));
  }

  /** The segments of a name whose first underscore is at `k`. */
  lemma TitledSegmentsAt(name: string, k: nat)
    requires k < |name| && name[k] == '_' && '_' !in name[..k]
    ensures TitledSegments(name) == [Title(name[..k])] + TitledSegments(name[k + 1..])
  {
    var pre := name[..k];
    var rest := name[k + 1..];
    assert name == pre + ['_'] + rest;
    SplitAtFirst(pre, '_', rest);
    var l := TitledSegments(name);
    var r := [Title(pre)] + TitledSegments(rest);
    assert |l| == |r|;
    forall i | 0 <= i < |l| ensures l[i] == r[i] {
      if i > 0 {
        assert Split(name, "_")[i] == Split(rest, "_")[i - 1];
      }
    }
  }

  /** `to_camelcase(s)` is `s.title().replace("_", "")` and `to_label(s)` is
      `s.title().replace("_", " ")`: the two differ only in what stands where
      the underscores were. */
  lemma CamelAndLabelFromTitle(name: string)
    ensures ToCamelCase(name) == Replace(Title(name), "_", "")
    ensures ToLabel(name) == Replace(Title(name), "_", " ")
  {
    TitleSplit(name);
  }

  /** Replacing a character by another one, position by position. */
  lemma {:induction false} ReplaceCharByChar(s: string, c: char, d: char)
    ensures |Replace(s, [c], [d])| == |s|
    ensures forall i :: 0 <= i < |s| ==> Replace(s, [c], [d])[i] == if s[i] == c then d else s[i]
    decreases |s|
  {
    FindChar(s, c);
    var k := Find(s, [c]);
    if k < 0 {
      SplitAbsent(s, c);
    } else {
      var rest := s[k + 1..];
      ReplaceCharByChar(rest, c, d);
      assert s == s[..k] + [c] + rest;
      ReplaceCharFirst(s[..k], c, d, rest);
      ReplacePositions(s, k, c, d, Replace(rest, [c], [d]));
    }
  }

  lemma ReplaceCharFirst(a: string, c: char, d: char, b: string)
    requires c !in a
    ensures Replace(a + [c] + b, [c], [d]) == a + [d] + Replace(b, [c], [d])
  {
    SplitAtFirst(a, c, b);
    JoinCons(a, Split(b, [c]), [d]);
  }

  lemma ReplacePositions(s: string, k: nat, c: char, d: char, rr: string)
    requires k < |s| && s[k] == c && c !in s[..k]
    requires |rr| == |s| - k - 1
    requires forall i :: 0 <= i < |rr| ==> rr[i] == if s[k + 1..][i] == c then d else s[k + 1..][i]
    ensures |s[..k] + [d] + rr| == |s|
    ensures forall i :: 0 <= i < |s| ==> (s[..k] + [d] + rr)[i] == if s[i] == c then d else s[i]
  {
    var r := s[..k] + [d] + rr;
    forall i | 0 <= i < |s| ensures r[i] == if s[i] == c then d else s[i] {
      if i < k {
        assert r[i] == s[i] && s[..k][i] == s[i];
      } else if i > k {
        assert r[i] == rr[i - k - 1] && s[k + 1..][i - k - 1] == s[i];
      }
    }
  }

  /** For a name without spaces, the CamelCase name is the label with its
      spaces taken out. */
  lemma CamelIsLabelWithoutSpaces(name: string)
    requires ' ' !in name
    ensures ToCamelCase(name) == Without(ToLabel(name), ' ')
  {
    TitleKeepsNonLetters(name, false, ' ');
    TitleKeepsNonLetters(name, false, '_');
    WithoutMapped(name, Title(name), ToLabel(name));
  }

  lemma {:induction false} WithoutMapped(s: string, t: string, l: string)
    requires |t| == |s| == |l|
    requires forall i :: 0 <= i < |s| ==> t[i] != ' '
    requires forall i :: 0 <= i < |s| ==> (t[i] == '_' <==> s[i] == '_')
    requires forall i :: 0 <= i < |s| ==> l[i] == if s[i] == '_' then ' ' else t[i]
    ensures Without(t, '_') == Without(l, ' ')
    decreases |s|
  {
    if s != [] {
      WithoutMapped(s[1..], t[1..], l[1..]);
      assert Without(t, '_') == (if t[0] == '_' then [] else [t[0]]) + Without(t[1..], '_');
      assert Without(l, ' ') == (if l[0] == ' ' then [] else [l[0]]) + Without(l[1..], ' ');
    }
  }

  // ---------------------------------------------------------------------------
  // CamelCase to snake_case

  /** The length of the run of lower-case letters `s` starts with. */
  function LowerRun(s: string): (n: nat)
    ensures n <= |s|
    ensures forall i :: 0 <= i < n ==> IsLower(s[i])
    ensures n < |s| ==> !IsLower(s[n])
  {
    if s == [] || !IsLower(s[0]) then 0 else 1 + LowerRun(s[1..])
  }

  /** First pass of `to_snakecase`, `re.sub("(.)([A-Z][a-z]+)", r"\1_\2", name)`,
      as a left-to-right scan over non-overlapping matches: an underscore goes
      between any character but a newline and a following capital that starts
      a lower-case run, and the scan resumes after that run. */
  function MarkWordStarts(s: string): string
    decreases |s|
  {
    if |s| >= 3 && s[0] != '\n' && IsUpper(s[1]) && IsLower(s[2]) then
      var j := 2 + LowerRun(s[2..]);
      [s[0]] + "_" + s[1..j] + MarkWordStarts(s[j..])
    else if s == [] then []
    else [s[0]] + MarkWordStarts(s[1..])
  }

  predicate IsLowerOrDigit(c: char) { IsLower(c) || IsDigit(c) }

  /** Second pass, `re.sub("([a-z0-9])([A-Z])", r"\1_\2", s1)`: an underscore
      between a lower-case letter or digit and a following capital. */
  function MarkCaseChanges(s: string): string
    decreases |s|
  {
    if |s| >= 2 && IsLowerOrDigit(s[0]) && IsUpper(s[1]) then
      [s[0], '_', s[1]] + MarkCaseChanges(s[2..])
    else if s == [] then []
    else [s[0]] + MarkCaseChanges(s[1..])
  }

  /** `to_snakecase`: both passes, then lower-cased. No capital survives. */
  function ToSnakeCase(name: string): (r: string)
    ensures forall i :: 0 <= i < |r| ==> !IsUpper(r[i])
  {
    Lower(MarkCaseChanges(MarkWordStarts(name)))
  }

  lemma {:induction false} MarkWordStartsOnlyInserts(s: string)
    ensures Without(MarkWordStarts(s), '_') == Without(s, '_')
    decreases |s|
  {
    if |s| >= 3 && s[0] != '\n' && IsUpper(s[1]) && IsLower(s[2]) {
      var j := 2 + LowerRun(s[2..]);
      MarkWordStartsOnlyInserts(s[j..]);
      HeadMiddleRest(s, j);
      WithoutInsert(s[0], s[1..j], MarkWordStarts(s[j..]), s[j..]);
    } else if s != [] {
      MarkWordStartsOnlyInserts(s[1..]);
      assert s == [s[0]] + s[1..];
      WithoutAppend([s[0]], MarkWordStarts(s[1..]), '_');
      WithoutAppend([s[0]], s[1..], '_');
    }
  }

  lemma HeadMiddleRest(s: string, j: nat)
    requires 1 <= j <= |s|
    ensures s == [s[0]] + s[1..j] + s[j..]
  {
  }

  /** An underscore inserted after the first character is the only
      difference that `Without` cannot see. */
  lemma WithoutInsert(x: char, mid: string, m: string, rest: string)
    requires Without(m, '_') == Without(rest, '_')
    ensures Without([x] + "_" + mid + m, '_') == Without([x] + mid + rest, '_')
  {
    WithoutAppend([x] + "_" + mid, m, '_');
    WithoutAppend([x] + "_", mid, '_');
    WithoutAppend([x] + mid, rest, '_');
    WithoutAppend([x], mid, '_');
    WithoutAppend([x], "_", '_');
  }

  lemma {:induction false} MarkCaseChangesOnlyInserts(s: string)
    ensures Without(MarkCaseChanges(s), '_') == Without(s, '_')
    decreases |s|
  {
    if |s| >= 2 && IsLowerOrDigit(s[0]) && IsUpper(s[1]) {
      MarkCaseChangesOnlyInserts(s[2..]);
      assert s == [s[0], s[1]] + s[2..];
      WithoutAppend([s[0], '_', s[1]], MarkCaseChanges(s[2..]), '_');
      WithoutAppend([s[0], s[1]], s[2..], '_');
      assert Without([s[0], '_', s[1]], '_') == Without([s[0], s[1]], '_');
    } else if s != [] {
      MarkCaseChangesOnlyInserts(s[1..]);
      assert s == [s[0]] + s[1..];
      WithoutAppend([s[0]], MarkCaseChanges(s[1..]), '_');
      WithoutAppend([s[0]], s[1..], '_');
    }
  }

  lemma {:induction false} LowerWithout(s: string, c: char)
    requires !IsLetter(c)
    ensures Lower(Without(s, c)) == Without(Lower(s), c)
    decreases |s|
  {
    if s != [] {
      LowerWithout(s[1..], c);
      assert Lower(s) == [LowerChar(s[0])] + Lower(s[1..]);
      assert Lower(s)[1..] == Lower(s[1..]);
      var h := if s[0] == c then [] else [s[0]];
      LowerAppend(h, Without(s[1..], c));
    }
  }

  /** `to_snakecase` changes a name only by inserting underscores and
      lower-casing: with every underscore dropped, it is the lower-cased name
      with every underscore dropped. */
  lemma SnakeCaseOnlyInsertsUnderscores(name: string)
    ensures Without(ToSnakeCase(name), '_') == Lower(Without(name, '_'))
  {
    MarkWordStartsOnlyInserts(name);
    MarkCaseChangesOnlyInserts(MarkWordStarts(name));
    LowerWithout(MarkCaseChanges(MarkWordStarts(name)), '_');
  }

  // ---------------------------------------------------------------------------
  // The round trip

  /** A segment the round trip covers: two or more lower-case ASCII letters. */
  predicate IsWord(w: string) {
    |w| >= 2 && forall i :: 0 <= i < |w| ==> IsLower(w[i])
  }

  /** A snake_case tool name whose every `_`-separated segment is a word. */
  predicate IsSnakeName(name: string) {
    var segs := Split(name, "_");
    forall i :: 0 <= i < |segs| ==> IsWord(segs[i])
  }

  predicate AllWords(ws: seq<string>) {
    forall i :: 0 <= i < |ws| ==> IsWord(ws[i])
  }

  function Capitalized(w: string): string
    requires w != []
  {
    [UpperChar(w[0])] + w[1..]
  }

  function Caps(ws: seq<string>): (r: seq<string>)
    requires AllWords(ws)
    ensures |r| == |ws|
    ensures forall i :: 0 <= i < |ws| ==> r[i] == Capitalized(ws[i])
  {
    seq(|ws|, i requires 0 <= i < |ws| => Capitalized(ws[i]))
  }

  lemma TitleOfWord(w: string)
    requires IsWord(w)
    ensures Title(w) == Capitalized(w)
  {
    var t := TitleFrom(w, false);
    forall i | 0 <= i < |w| ensures t[i] == Capitalized(w)[i] {
      if i > 0 {
        assert t[i] == TitleChar(w[i], IsLetter(w[i - 1]));
      }
    }
  }

  /** The CamelCase form of a list of words. */
  function Camel(ws: seq<string>): string
    requires AllWords(ws)
  {
    Join(Caps(ws), "")
  }

  lemma CamelCons(ws: seq<string>)
    requires AllWords(ws) && ws != []
    ensures Camel(ws) == Capitalized(ws[0]) + Camel(ws[1..])
    ensures Camel(ws[1..]) != [] ==> IsUpper(Camel(ws[1..])[0])
  {
    CamelStep(ws);
    if |ws| > 1 {
      CamelHead(ws[1..]);
    }
  }

  lemma CamelStep(ws: seq<string>)
    requires AllWords(ws) && ws != []
    ensures Camel(ws) == Capitalized(ws[0]) + Camel(ws[1..])
  {
    CapsCons(ws);
    JoinNoSep(Capitalized(ws[0]), Caps(ws[1..]));
  }

  lemma JoinNoSep(p: string, ps: seq<string>)
    ensures Join([p] + ps, "") == p + Join(ps, "")
  {
    JoinCons(p, ps, "");
    if ps == [] {
      assert Join(ps, "") == [];
    }
  }

  lemma CamelHead(ws: seq<string>)
    requires AllWords(ws) && ws != []
    ensures Camel(ws) != [] && IsUpper(Camel(ws)[0])
  {
    CamelStep(ws);
    var cap := Capitalized(ws[0]);
    assert IsWord(ws[0]);
    assert Camel(ws)[0] == cap[0] == UpperChar(ws[0][0]);
  }

  lemma CapsCons(ws: seq<string>)
    requires AllWords(ws) && ws != []
    ensures Caps(ws) == [Capitalized(ws[0])] + Caps(ws[1..])
  {
    var c := Caps(ws);
    var d := [Capitalized(ws[0])] + Caps(ws[1..]);
    assert |c| == |d|;
    forall i | 0 <= i < |c| ensures c[i] == d[i] {
      if i > 0 {
        assert d[i] == Caps(ws[1..])[i - 1] == Capitalized(ws[1..][i - 1]);
      }
    }
  }

  lemma {:induction false} LowerRunOf(a: string, b: string)
    requires forall i :: 0 <= i < |a| ==> IsLower(a[i])
    requires b == [] || !IsLower(b[0])
    ensures LowerRun(a + b) == |a|
    decreases |a|
  {
    if a == [] {
      assert a + b == b;
    } else {
      LowerRunOf(a[1..], b);
      assert (a + b)[1..] == a[1..] + b;
    }
  }

  /** The first pass moves on by one character when the second is not a
      capital. */
  lemma MarkSkip(s: string)
    requires |s| >= 2 && !IsUpper(s[1])
    ensures MarkWordStarts(s) == [s[0]] + MarkWordStarts(s[1..])
  {
  }

  /** The first pass marks a capitalised word that follows any character but a
      newline, and swallows the word. */
  lemma MarkWord(c: char, w: string, rest: string)
    requires c != '\n' && IsWord(w)
    requires rest == [] || IsUpper(rest[0])
    ensures MarkWordStarts([c] + Capitalized(w) + rest) == [c] + "_" + Capitalized(w) + MarkWordStarts(rest)
  {
    var cap := Capitalized(w);
    assert cap[0] == UpperChar(w[0]) && cap[1..] == w[1..];
    MarkCapital(c, cap, rest);
  }

  lemma MarkCapital(c: char, cap: string, rest: string)
    requires c != '\n' && |cap| >= 2 && IsUpper(cap[0])
    requires forall i :: 1 <= i < |cap| ==> IsLower(cap[i])
    requires rest == [] || IsUpper(rest[0])
    ensures MarkWordStarts([c] + cap + rest) == [c] + "_" + cap + MarkWordStarts(rest)
  {
    var s := [c] + cap + rest;
    var j := |cap| + 1;
    assert s[2..] == cap[1..] + rest;
    LowerRunOf(cap[1..], rest);
    MarkAt(s, j);
    assert s[1..j] == cap;
    assert s[j..] == rest;
  }

  /** The first pass at a match: the underscore goes in and the scan resumes
      at `j`, the end of the lower-case run. */
  lemma MarkAt(s: string, j: nat)
    requires |s| >= 3 && s[0] != '\n' && IsUpper(s[1]) && IsLower(s[2])
    requires j == 2 + LowerRun(s[2..])
    ensures j <= |s|
    ensures MarkWordStarts(s) == [s[0]] + "_" + s[1..j] + MarkWordStarts(s[j..])
  {
  }

  /** What the first pass leaves after a lower-case tail and before the next
      word. */
  function AfterTail(t: string, ws: seq<string>): string
    requires AllWords(ws)
  {
    if ws == [] then t else t + "_" + Capitalized(ws[0]) + MarkWordStarts(Camel(ws[1..]))
  }

  lemma {:induction false} MarkLastLetter(c: char, ws: seq<string>)
    requires IsLower(c) && AllWords(ws)
    ensures MarkWordStarts([c] + Camel(ws)) == AfterTail([c], ws)
  {
    if ws == [] {
      MarkLastLetterEnd(c, ws);
    } else {
      MarkLastLetterMore(c, ws);
    }
  }

  lemma {:induction false} MarkLastLetterEnd(c: char, ws: seq<string>)
    requires IsLower(c) && ws == []
    ensures MarkWordStarts([c] + Camel(ws)) == AfterTail([c], ws)
  {
    assert [c] + Camel(ws) == [c];
    assert MarkWordStarts([c]) == [c] + MarkWordStarts([]);
  }

  lemma {:induction false} MarkLastLetterMore(c: char, ws: seq<string>)
    requires IsLower(c) && AllWords(ws) && ws != []
    ensures MarkWordStarts([c] + Camel(ws)) == AfterTail([c], ws)
  {
    CamelCons(ws);
    assert IsWord(ws[0]);
    MarkWordBefore(c, ws[0], Camel(ws[1..]), Camel(ws));
  }

  lemma MarkWordBefore(c: char, w: string, rest: string, x: string)
    requires c != '\n' && IsWord(w)
    requires rest == [] || IsUpper(rest[0])
    requires x == Capitalized(w) + rest
    ensures MarkWordStarts([c] + x) == [c] + "_" + Capitalized(w) + MarkWordStarts(rest)
  {
    assert [c] + x == [c] + Capitalized(w) + rest;
    MarkWord(c, w, rest);
  }

  /** The first pass over a lower-case tail `t` followed by more words: it
      marks the start of the next word, then swallows that word. */
  lemma {:induction false} MarkTail(t: string, ws: seq<string>)
    requires t != [] && forall i :: 0 <= i < |t| ==> IsLower(t[i])
    requires AllWords(ws)
    ensures MarkWordStarts(t + Camel(ws)) == AfterTail(t, ws)
    decreases |t|
  {
    if |t| >= 2 {
      MarkTail(t[1..], ws);
      MarkTailStep(t, Camel(ws), AfterTail(t[1..], ws));
      AfterTailCons(t, ws);
    } else {
      assert t == [t[0]];
      MarkLastLetter(t[0], ws);
    }
  }

  lemma MarkTailStep(t: string, rest: string, after: string)
    requires |t| >= 2 && IsLower(t[1])
    requires MarkWordStarts(t[1..] + rest) == after
    ensures MarkWordStarts(t + rest) == [t[0]] + after
  {
    var s := t + rest;
    assert s[1] == t[1];
    MarkSkip(s);
    assert s[1..] == t[1..] + rest;
  }

  lemma AfterTailCons(t: string, ws: seq<string>)
    requires t != [] && AllWords(ws)
    ensures AfterTail(t, ws) == [t[0]] + AfterTail(t[1..], ws)
  {
    assert t == [t[0]] + t[1..];
  }

  /** What the first pass makes of a CamelCase name: every second word
      boundary gets its underscore. */
  function Paired(ws: seq<string>): string
    requires AllWords(ws)
    decreases |ws|
  {
    if |ws| == 0 then []
    else if |ws| == 1 then Capitalized(ws[0])
    else Capitalized(ws[0]) + "_" + Capitalized(ws[1]) + Paired(ws[2..])
  }

  lemma PairedAfterTail(ws: seq<string>)
    requires AllWords(ws) && ws != []
    requires |ws| >= 2 ==> MarkWordStarts(Camel(ws[2..])) == Paired(ws[2..])
    ensures [Capitalized(ws[0])[0]] + AfterTail(Capitalized(ws[0])[1..], ws[1..]) == Paired(ws)
  {
    var cap := Capitalized(ws[0]);
    var t := cap[1..];
    if |ws| == 1 {
      assert cap == [cap[0]] + t;
    } else {
      AfterTailTwo(t, ws);
      PairedTwo(ws);
      PrependPieces(cap, Capitalized(ws[1]), Paired(ws[2..]));
    }
  }

  lemma AfterTailTwo(t: string, ws: seq<string>)
    requires AllWords(ws) && |ws| >= 2
    ensures AfterTail(t, ws[1..]) == t + "_" + Capitalized(ws[1]) + MarkWordStarts(Camel(ws[2..]))
  {
    var r := ws[1..];
    assert r[0] == ws[1] && r[1..] == ws[2..];
  }

  lemma PrependPieces(cap: string, c1: string, p: string)
    requires cap != []
    ensures [cap[0]] + (cap[1..] + "_" + c1 + p) == cap + "_" + c1 + p
  {
    assert cap == [cap[0]] + cap[1..];
  }

  lemma {:induction false} MarkWordStartsOfCamel(ws: seq<string>)
    requires AllWords(ws)
    ensures MarkWordStarts(Camel(ws)) == Paired(ws)
    decreases |ws|
  {
    if ws != [] {
      var cap := Capitalized(ws[0]);
      assert IsWord(ws[0]);
      CamelCons(ws);
      MarkTail(cap[1..], ws[1..]);
      MarkTailStep(cap, Camel(ws[1..]), AfterTail(cap[1..], ws[1..]));
      if |ws| >= 2 {
        MarkWordStartsOfCamel(ws[2..]);
      }
      PairedAfterTail(ws);
    }
  }

  /** Whether the second pass puts an underscore where `a` meets `b`. */
  function Cut(a: string, b: string): string {
    if a != [] && b != [] && IsLowerOrDigit(a[|a| - 1]) && IsUpper(b[0]) then "_" else []
  }

  lemma MarkCaseChangesPair(s: string)
    requires |s| >= 2 && IsLowerOrDigit(s[0]) && IsUpper(s[1])
    ensures MarkCaseChanges(s) == [s[0]] + "_" + [s[1]] + MarkCaseChanges(s[2..])
  {
  }

  lemma MarkCaseChangesOne(s: string)
    requires s != [] && !(|s| >= 2 && IsLowerOrDigit(s[0]) && IsUpper(s[1]))
    ensures MarkCaseChanges(s) == [s[0]] + MarkCaseChanges(s[1..])
  {
  }

  lemma MarkCaseChangesAppendOne(x: char, b: string)
    ensures MarkCaseChanges([x] + b) == [x] + Cut([x], b) + MarkCaseChanges(b)
  {
    var s := [x] + b;
    if b != [] && IsLowerOrDigit(x) && IsUpper(b[0]) {
      MarkCaseChangesPair(s);
      assert s[2..] == b[1..];
      MarkCaseChangesOne(b);
    } else {
      MarkCaseChangesOne(s);
      assert s[1..] == b;
    }
  }

  /** The second pass inserts its underscores independently on each side of a
      cut, plus one at the cut itself when the cut is a case change. */
  lemma {:induction false} MarkCaseChangesAppend(a: string, b: string)
    ensures MarkCaseChanges(a + b) == MarkCaseChanges(a) + Cut(a, b) + MarkCaseChanges(b)
    decreases |a|
  {
    if a == [] {
      assert a + b == b;
    } else if |a| == 1 {
      MarkCaseChangesAppendOne(a[0], b);
      assert a == [a[0]];
      MarkCaseChangesOne(a);
    } else if IsLowerOrDigit(a[0]) && IsUpper(a[1]) {
      MarkCaseChangesAppendPair(a, b);
    } else {
      MarkCaseChangesAppendStep(a, b);
    }
  }

  lemma {:induction false} MarkCaseChangesAppendStep(a: string, b: string)
    requires |a| >= 2 && !(IsLowerOrDigit(a[0]) && IsUpper(a[1]))
    ensures MarkCaseChanges(a + b) == MarkCaseChanges(a) + Cut(a, b) + MarkCaseChanges(b)
    decreases |a|, 0
  {
    var t := a[1..];
    var ab := a + b;
    assert ab[0] == a[0] && ab[1] == a[1];
    MarkCaseChangesOne(a);
    MarkCaseChangesOne(ab);
    assert ab[1..] == t + b;
    MarkCaseChangesAppend(t, b);
    assert t[|t| - 1] == a[|a| - 1];
    assert Cut(t, b) == Cut(a, b);
    ConcatAssoc([a[0]], MarkCaseChanges(t), Cut(a, b), MarkCaseChanges(b));
  }

  lemma {:induction false} MarkCaseChangesAppendPair(a: string, b: string)
    requires |a| >= 2 && IsLowerOrDigit(a[0]) && IsUpper(a[1])
    ensures MarkCaseChanges(a + b) == MarkCaseChanges(a) + Cut(a, b) + MarkCaseChanges(b)
    decreases |a|, 0
  {
    var t := a[2..];
    var ab := a + b;
    assert ab[0] == a[0] && ab[1] == a[1];
    MarkCaseChangesPair(a);
    MarkCaseChangesPair(ab);
    assert ab[2..] == t + b;
    MarkCaseChangesAppend(t, b);
    if t == [] {
      assert Cut(a, b) == [] && Cut(t, b) == [];
    } else {
      assert t[|t| - 1] == a[|a| - 1];
      assert Cut(t, b) == Cut(a, b);
    }
    ConcatAssoc([a[0], '_', a[1]], MarkCaseChanges(t), Cut(a, b), MarkCaseChanges(b));
  }

  lemma ConcatAssoc(p: string, m: string, c: string, q: string)
    ensures p + (m + c + q) == (p + m) + c + q
  {
  }

  /** No lower-case letter or digit is followed by a capital. */
  predicate NoCaseChange(s: string) {
    forall i :: 0 <= i < |s| - 1 ==> !(IsLowerOrDigit(s[i]) && IsUpper(s[i + 1]))
  }

  /** The second pass leaves a string without case changes alone. */
  lemma {:induction false} MarkCaseChangesNone(s: string)
    requires NoCaseChange(s)
    ensures MarkCaseChanges(s) == s
    decreases |s|
  {
    if s != [] {
      MarkCaseChangesOne(s);
      var t := s[1..];
      forall i | 0 <= i < |t| - 1 ensures !(IsLowerOrDigit(t[i]) && IsUpper(t[i + 1])) {
        assert t[i] == s[i + 1] && t[i + 1] == s[i + 2];
      }
      MarkCaseChangesNone(t);
    }
  }

  lemma MarkCaseChangesOfCapitalized(w: string)
    requires IsWord(w)
    ensures NoCaseChange(Capitalized(w))
    ensures MarkCaseChanges(Capitalized(w)) == Capitalized(w)
  {
    var cap := Capitalized(w);
    assert forall i :: 1 <= i < |cap| ==> cap[i] == w[i];
    MarkCaseChangesNone(cap);
  }

  lemma {:induction false} MarkCaseChangesOfPaired(ws: seq<string>)
    requires AllWords(ws)
    ensures MarkCaseChanges(Paired(ws)) == Join(Caps(ws), "_")
    decreases |ws|
  {
    if |ws| == 1 {
      MarkCaseChangesOfCapitalized(ws[0]);
    } else if |ws| >= 2 {
      MarkCaseChangesOfPaired(ws[2..]);
      MarkCaseChangesOfTwoMore(ws);
    }
  }

  /** One step of `MarkCaseChangesOfPaired`: two more words in front. */
  lemma MarkCaseChangesOfTwoMore(ws: seq<string>)
    requires |ws| >= 2 && AllWords(ws)
    requires MarkCaseChanges(Paired(ws[2..])) == Join(Caps(ws[2..]), "_")
    ensures MarkCaseChanges(Paired(ws)) == Join(Caps(ws), "_")
  {
    var c0 := Capitalized(ws[0]);
    var c1 := Capitalized(ws[1]);
    var r := ws[2..];
    var x := c0 + "_" + c1;
    PairedTwo(ws);
    MarkCaseChangesOfCapitalized(ws[0]);
    MarkCaseChangesOfCapitalized(ws[1]);
    MarkCaseChangesUnderscore(c0, c1);
    if r == [] {
      JoinCapsTwo(ws);
    } else {
      PairedHead(r);
      assert x[|x| - 1] == c1[|c1| - 1];
      JoinCapsTwoMore(ws);
    }
    MarkCaseChangesJoinStep(x, Paired(r), Join(Caps(r), "_"), Join(Caps(ws), "_"));
  }

  /** The second pass over a piece it leaves alone, followed by a piece it
      turns into `j`: an underscore goes in between when the first ends in a
      lower-case letter and the second starts with a capital. */
  lemma MarkCaseChangesJoinStep(x: string, p: string, j: string, joined: string)
    requires MarkCaseChanges(x) == x && MarkCaseChanges(p) == j
    requires p == [] ==> joined == x
    requires p != [] ==> IsUpper(p[0]) && x != [] && IsLower(x[|x| - 1]) && joined == x + "_" + j
    ensures MarkCaseChanges(x + p) == joined
  {
    MarkCaseChangesAppend(x, p);
    if p == [] {
      assert MarkCaseChanges(p) == [];
    }
  }

  lemma PairedTwo(ws: seq<string>)
    requires |ws| >= 2 && AllWords(ws)
    ensures Paired(ws) == Capitalized(ws[0]) + "_" + Capitalized(ws[1]) + Paired(ws[2..])
  {
  }

  lemma PairedHead(ws: seq<string>)
    requires |ws| >= 1 && AllWords(ws)
    ensures Paired(ws) != [] && IsUpper(Paired(ws)[0])
  {
    assert Paired(ws)[0] == UpperChar(ws[0][0]);
  }

  lemma JoinCapsTwo(ws: seq<string>)
    requires |ws| == 2 && AllWords(ws)
    ensures Join(Caps(ws), "_") == Capitalized(ws[0]) + "_" + Capitalized(ws[1])
  {
    var c := Caps(ws);
    assert c[1..] == [c[1]];
  }

  /** An underscore between two pieces without case changes makes none:
      `_` is neither a lower-case letter, a digit nor a capital. */
  lemma MarkCaseChangesUnderscore(x: string, y: string)
    requires NoCaseChange(x) && NoCaseChange(y)
    ensures MarkCaseChanges(x + "_" + y) == x + "_" + y
  {
    var s := x + "_" + y;
    forall i | 0 <= i < |s| - 1 ensures !(IsLowerOrDigit(s[i]) && IsUpper(s[i + 1])) {
      if i < |x| - 1 {
        assert s[i] == x[i] && s[i + 1] == x[i + 1];
      } else if i > |x| {
        assert s[i] == y[i - |x| - 1] && s[i + 1] == y[i - |x|];
      }
    }
    MarkCaseChangesNone(s);
  }

  lemma JoinCapsTwoMore(ws: seq<string>)
    requires |ws| >= 3 && AllWords(ws)
    ensures Join(Caps(ws), "_")
         == Capitalized(ws[0]) + "_" + Capitalized(ws[1]) + "_" + Join(Caps(ws[2..]), "_")
  {
    var c := Caps(ws);
    assert c[1..][1..] == Caps(ws[2..]);
  }

  lemma {:induction false} LowerOfCaps(ws: seq<string>)
    requires AllWords(ws)
    ensures Lower(Join(Caps(ws), "_")) == Join(ws, "_")
    decreases |ws|
  {
    if ws != [] {
      var w := ws[0];
      var tail := ws[1..];
      LowerOfCapitalized(w);
      CapsCons(ws);
      if tail != [] {
        LowerOfCaps(tail);
      }
      LowerJoinCons(Capitalized(w), Caps(tail), ws);
    }
  }

  lemma LowerJoinCons(cw: string, ct: seq<string>, ws: seq<string>)
    requires ws != [] && Lower(cw) == ws[0] && (ct == [] <==> |ws| == 1)
    requires ct != [] ==> Lower(Join(ct, "_")) == Join(ws[1..], "_")
    ensures Lower(Join([cw] + ct, "_")) == Join(ws, "_")
  {
    JoinCons(cw, ct, "_");
    JoinCons(ws[0], ws[1..], "_");
    assert ws == [ws[0]] + ws[1..];
    if ct != [] {
      LowerAroundUnderscore(cw, Join(ct, "_"));
    }
  }

  lemma LowerOfCapitalized(w: string)
    requires IsWord(w)
    ensures Lower(Capitalized(w)) == w
  {
    LowerOfUpper(w[0]);
    var l := Lower(Capitalized(w));
    forall i | 0 <= i < |w| ensures l[i] == w[i] {
      if i > 0 {
        assert Capitalized(w)[i] == w[i];
      }
    }
  }

  lemma LowerAroundUnderscore(a: string, b: string)
    ensures Lower(a + "_" + b) == Lower(a) + "_" + Lower(b)
  {
    LowerAppend(a + "_", b);
    LowerAppend(a, "_");
    assert Lower("_") == "_";
  }

  /** `to_snakecase` undoes CamelCase for a list of words. */
  lemma SnakeOfCamel(ws: seq<string>)
    requires AllWords(ws)
    ensures ToSnakeCase(Camel(ws)) == Join(ws, "_")
  {
    MarkWordStartsOfCamel(ws);
    MarkCaseChangesOfPaired(ws);
    LowerOfCaps(ws);
  }

  lemma CamelOfSnakeName(name: string)
    requires IsSnakeName(name)
    ensures AllWords(Split(name, "_"))
    ensures ToCamelCase(name) == Camel(Split(name, "_"))
  {
    var segs := Split(name, "_");
    forall i | 0 <= i < |segs| ensures TitledSegments(name)[i] == Caps(segs)[i] {
      TitleOfWord(segs[i]);
    }
    assert TitledSegments(name) == Caps(segs);
  }

  /** snake_case to CamelCase and back gives the name again, for names made of
      words of at least two lower-case letters. */
  lemma SnakeCamelRoundTrip(name: string)
    requires IsSnakeName(name)
    ensures ToSnakeCase(ToCamelCase(name)) == name
  {
    CamelOfSnakeName(name);
    SnakeOfCamel(Split(name, "_"));
    JoinSplit(name, "_");
  }

  /** The other direction: the CamelCase form of words survives a trip
      through snake_case. */
  lemma CamelSnakeRoundTrip(ws: seq<string>)
    requires ws != [] && AllWords(ws)
    ensures ToCamelCase(ToSnakeCase(Camel(ws))) == Camel(ws)
  {
    SnakeOfCamel(ws);
    var name := Join(ws, "_");
    SplitJoin(ws, '_');
    assert Split(name, "_") == ws;
    CamelOfSnakeName(name);
  }

  /** CamelCase, snake_case, CamelCase again is stable. */
  lemma CamelSnakeCamelStable(name: string)
    requires IsSnakeName(name)
    ensures ToCamelCase(ToSnakeCase(ToCamelCase(name))) == ToCamelCase(name)
  {
    SnakeCamelRoundTrip(name);
  }

  /** Two one-letter segments next to each other do not survive the round
      trip: `a_b` becomes `AB`, which holds no capital followed by a
      lower-case letter, so `to_snakecase` inserts nothing and gives `ab`. */
  lemma AdjacentLettersMerge()
    ensures ToCamelCase("a_b") == "AB"
    ensures ToSnakeCase("AB") == "ab"
    ensures ToSnakeCase(ToCamelCase("a_b")) != "a_b"
    ensures ToCamelCase(ToSnakeCase(ToCamelCase("a_b"))) != ToCamelCase("a_b")
  {
    SplitLetters('a', 'b');
    assert Title("a") == "A" && Title("b") == "B";
    assert TitledSegments("a_b") == ["A", "B"];
    assert MarkWordStarts("AB") == "AB";
    assert MarkCaseChanges("AB") == "AB";
    assert Lower("AB") == "ab";
    MergedCamel();
  }

  /** `ab` in CamelCase is `Ab`. */
  lemma MergedCamel()
    ensures ToCamelCase("ab") == "Ab"
  {
    assert Title("ab") == "Ab";
    assert Without("Ab", '_') == "Ab";
  }

  lemma SplitLetters(x: char, y: char)
    requires x != '_' && y != '_'
    ensures Split([x, '_', y], "_") == [[x], [y]]
  {
    var s := [x, '_', y];
    FindChar(s, '_');
    assert Find(s, "_") == 1;
    SplitFirst(s, "_");
    FindChar([y], '_');
    SplitFirst([y], "_");
    assert s[..1] == [x] && s[2..] == [y];
    assert Split(s, "_") == [[x]] + Split([y], "_");
  }
}
