/**
 * Heading demotion by `addSelectedTitleToArticles`: every run of `#` that
 * the demotion regex matches gains one `#`, and the sidebar title is put in
 * front as a level-one heading.  The lib/ assembler matches only runs at the
 * start of the text or after whitespace (`/(?<=^|\s)#+/g`); the two earlier
 * assemblers match every run (`/(#)+/g`).
 */
module Headings {
  import opened Strings

  /** Which runs of `#` the demotion regex matches. */
  datatype Rule =
    | WordStart  // `/(?<=^|\s)#+/g`: a run at the start of the text or after whitespace
    | Anywhere   // `/(#)+/g`: every maximal run

  /** After the character `c`, may a `#` start a matched run?  Never after a `#`, which would be inside a run. */
  predicate Opens(rule: Rule, c: char) {
    match rule
    case WordStart => IsSpace(c)
    case Anywhere => c != '#'
  }

  /** What one character becomes: the first `#` of a matched run is doubled, anything else is copied. */
  function Emit(c: char, open: bool): string {
    if c == '#' && open then "##" else [c]
  }

  /**
   * Demotion from a position where `open` says whether a `#` here would
   * start a matched run.
   */
  function DemoteFrom(s: string, open: bool, rule: Rule): string {
    if s == [] then []
    else Emit(s[0], open) + DemoteFrom(s[1..], Opens(rule, s[0]), rule)
  }

  /** Text without `#` is left as it is; demotion never shortens, and keeps a first character that is not `#`. */
  lemma {:induction false} DemoteFromFacts(s: string, open: bool, rule: Rule)
    ensures '#' !in s ==> DemoteFrom(s, open, rule) == s
    ensures |DemoteFrom(s, open, rule)| >= |s|
    ensures s != [] && s[0] != '#' ==> DemoteFrom(s, open, rule) != [] && DemoteFrom(s, open, rule)[0] == s[0]
  {
    if s != [] {
      DemoteFromFacts(s[1..], Opens(rule, s[0]), rule);
      if '#' !in s {
        assert '#' !in s[1..] by {
          forall c | c in s[1..] ensures c != '#' {
            var i :| 0 <= i < |s[1..]| && s[1..][i] == c;
            assert s[i + 1] == c;
          }
        }
        assert s == [s[0]] + s[1..];
      }
    }
  }

  /** Demotion only adds `#`: every other character is in the result exactly when it is in the text. */
  lemma {:induction false} DemoteKeepsChars(s: string, open: bool, rule: Rule, c: char)
    requires c != '#'
    ensures c in DemoteFrom(s, open, rule) <==> c in s
  {
    if s != [] {
      DemoteKeepsChars(s[1..], Opens(rule, s[0]), rule, c);
      assert s == [s[0]] + s[1..];
    }
  }

  /** The replacement over a whole text, which starts open (`^`). */
  function Demote(s: string, rule: Rule): string {
    DemoteFrom(s, true, rule)
  }

  /** The inverse: the first `#` of a matched run is read as two and written as one. */
  function PromoteFrom(t: string, open: bool, rule: Rule): string {
    if t == [] then []
    else if t[0] == '#' && open && |t| >= 2 then "#" + PromoteFrom(t[2..], false, rule)
    else [t[0]] + PromoteFrom(t[1..], Opens(rule, t[0]), rule)
  }

  /** Demotion loses nothing: promoting its output gives the text back. */
  lemma {:induction false} PromoteDemote(s: string, open: bool, rule: Rule)
    ensures PromoteFrom(DemoteFrom(s, open, rule), open, rule) == s
  {
    if s != [] {
      var rest := DemoteFrom(s[1..], Opens(rule, s[0]), rule);
      PromoteDemote(s[1..], Opens(rule, s[0]), rule);
      var t := DemoteFrom(s, open, rule);
      assert t == Emit(s[0], open) + rest;
      if s[0] == '#' && open {
        assert t[2..] == rest;
        assert !Opens(rule, '#');
      } else {
        assert t[1..] == rest;
      }
    }
  }

  /** Whether a `#` may open a run after the whole of `x`, having started in state `open`. */
  function OpenAfter(x: string, open: bool, rule: Rule): bool {
    if x == [] then open else Opens(rule, x[|x| - 1])
  }

  lemma DemoteCons(x: string, open: bool, rule: Rule)
    requires x != []
    ensures DemoteFrom(x, open, rule) == Emit(x[0], open) + DemoteFrom(x[1..], Opens(rule, x[0]), rule)
  {
  }

  lemma OpenAfterTail(x: string, open: bool, rule: Rule)
    requires x != []
    ensures OpenAfter(x[1..], Opens(rule, x[0]), rule) == OpenAfter(x, open, rule)
  {
    if |x| > 1 {
      assert x[1..][|x[1..]| - 1] == x[|x| - 1];
    }
  }

  /** Demotion works piecewise: the second part is demoted in the state the first part leaves. */
  lemma {:induction false} DemoteAppend(x: string, y: string, open: bool, rule: Rule)
    ensures DemoteFrom(x + y, open, rule)
         == DemoteFrom(x, open, rule) + DemoteFrom(y, OpenAfter(x, open, rule), rule)
  {
    if x == [] {
      assert x + y == y;
    } else {
      var next := Opens(rule, x[0]);
      ConcatTail(x, y);
      DemoteAppend(x[1..], y, next, rule);
      OpenAfterTail(x, open, rule);
      DemoteCons(x + y, open, rule);
      DemoteCons(x, open, rule);
      ConcatAssoc(Emit(x[0], open), DemoteFrom(x[1..], next, rule), DemoteFrom(y, OpenAfter(x, open, rule), rule));
    }
  }

  /** A heading marker at a matched position gains exactly one level. */
  lemma {:induction false} DemoteHeading(k: nat, rest: string, rule: Rule)
    requires k >= 1 && (rest == [] || rest[0] != '#')
    ensures DemoteFrom(Repeat('#', k) + rest, true, rule) == Repeat('#', k + 1) + DemoteFrom(rest, false, rule)
  {
    DemoteAppend(Repeat('#', k), rest, true, rule);
    HashesDemote(k, true, rule);
  }

  lemma {:induction false} HashesDemote(k: nat, open: bool, rule: Rule)
    requires k >= 1
    ensures DemoteFrom(Repeat('#', k), open, rule) == (if open then Repeat('#', k + 1) else Repeat('#', k))
    ensures OpenAfter(Repeat('#', k), open, rule) == false
  {
    if k > 1 {
      assert Repeat('#', k)[1..] == Repeat('#', k - 1);
      HashesDemote(k - 1, false, rule);
      assert Repeat('#', k + 1) == "#" + Repeat('#', k);
    } else {
      assert Repeat('#', 1)[1..] == [];
    }
  }

  /** Demoting twice, as a titled child inside a group is, shifts a leading heading by two levels. */
  lemma DemoteHeadingTwice(k: nat, rest: string, rule: Rule)
    requires k >= 1 && (rest == [] || rest[0] != '#')
    ensures Demote(Demote(Repeat('#', k) + rest, rule), rule)
         == Repeat('#', k + 2) + DemoteFrom(DemoteFrom(rest, false, rule), false, rule)
  {
    DemoteHeading(k, rest, rule);
    DemoteFromFacts(rest, false, rule);
    DemoteHeading(k + 1, DemoteFrom(rest, false, rule), rule);
  }

  /**
   * The two rules part on a `#` inside a word, such as the `zh#abc` of the
   * lib/ assembler's own example: only the match-anywhere rule demotes it.
   */
  lemma MidWordRun(a: string, b: string)
    requires a != [] && '#' !in a && !IsSpace(a[|a| - 1]) && '#' !in b
    ensures Demote(a + "#" + b, WordStart) == a + "#" + b
    ensures Demote(a + "#" + b, Anywhere) == a + "##" + b
  {
    RunAfterText(a, b, WordStart);
    RunAfterText(a, b, Anywhere);
    assert !OpenAfter(a, true, WordStart);
    assert a[|a| - 1] in a;
    assert OpenAfter(a, true, Anywhere);
  }

  /** A single `#` after `#`-free text is doubled exactly when that text leaves the scan open. */
  lemma RunAfterText(a: string, b: string, rule: Rule)
    requires '#' !in a && '#' !in b
    ensures Demote(a + "#" + b, rule) == a + (if OpenAfter(a, true, rule) then "##" else "#") + b
  {
    assert a + "#" + b == a + ("#" + b);
    DemoteAppend(a, "#" + b, true, rule);
    DemoteFromFacts(a, true, rule);
    HashThen(b, OpenAfter(a, true, rule), rule);
  }

  lemma HashThen(b: string, open: bool, rule: Rule)
    requires '#' !in b
    ensures DemoteFrom("#" + b, open, rule) == (if open then "##" else "#") + b
  {
    assert ("#" + b)[0] == '#' && ("#" + b)[1..] == b;
    DemoteFromFacts(b, false, rule);
    DemoteCons("#" + b, open, rule);
  }

  /** The `map` over the texts. */
  function DemoteEach(list: seq<string>, rule: Rule): (r: seq<string>)
    ensures |r| == |list|
    ensures forall i :: 0 <= i < |list| ==> r[i] == Demote(list[i], rule)
  {
    if list == [] then [] else [Demote(list[0], rule)] + DemoteEach(list[1..], rule)
  }

  /**
   * `addSelectedTitleToArticles(title, list)`: every text demoted, and
   * `# title` put in front.
   */
  function AddSelectedTitle(title: string, list: seq<string>, rule: Rule): (r: seq<string>)
    ensures |r| == |list| + 1
    ensures r[0] == "# " + title
    ensures forall i :: 0 <= i < |list| ==> PromoteFrom(r[i + 1], true, rule) == list[i]
    ensures forall i :: 0 <= i < |list| && '#' !in list[i] ==> r[i + 1] == list[i]
  {
    var demoted := DemoteEach(list, rule);
    forall i | 0 <= i < |list|
      ensures PromoteFrom(demoted[i], true, rule) == list[i]
      ensures '#' !in list[i] ==> demoted[i] == list[i]
    {
      PromoteDemote(list[i], true, rule);
      DemoteFromFacts(list[i], true, rule);
    }
    ["# " + title] + demoted
  }
}
