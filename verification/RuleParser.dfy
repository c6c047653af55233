/** Lines of a rules file: "if <condition> then <action>". */
module RuleParser {
  import opened Options
  import opened CText

  datatype Rule = Rule(condition: string, action: string)

  function SkipBlanks(s: string): string {
    if s != [] && (s[0] == ' ' || s[0] == '\t') then SkipBlanks(s[1..]) else s
  }

  const SEPARATOR := " then "

  /**
   One line, as the loader cuts it up in place. When the separator starts at the blank of "if ", the
   condition pointer is already past the NUL that ends it, and runs to the end of the line.
   */
  function ParseRule(text: string): Option<Rule> {
    var s := SkipBlanks(text);
    if s == [] || s[0] == '#' then None
    else if !("if " <= s) then None
    else
      match IndexOf(s, SEPARATOR)
      case None => None
      case Some(t) =>
        var condition := if t < 3 then s[3..] else s[3..t];
        var action := s[t + 6..];
        if condition == [] || action == [] then None else Some(Rule(condition, action))
  }

  function PrintRule(r: Rule): string {
    "if " + r.condition + SEPARATOR + r.action
  }

  /** Non-empty, and free of the characters that end a line. */
  predicate Fits(field: string) {
    field != [] && '\0' !in field && '\n' !in field
  }

  /** The separator overlaps itself only in its single last blank. */
  lemma SeparatorOverlap(s: string, i: nat, j: nat)
    requires At(s, SEPARATOR, i) && At(s, SEPARATOR, j) && i < j
    ensures j >= i + 5
  {
    assert forall k | 0 <= k < 6 :: s[i + k] == s[i..i + 6][k] == SEPARATOR[k];
    assert s[j] == s[j..j + 6][0] == ' ';
    assert forall k | 1 <= k < 5 :: SEPARATOR[k] != ' ';
  }

  /** An occurrence inside the blank-padded condition is one inside the printed rule, two further on. */
  lemma InnerOccurrence(r: Rule, j: nat)
    ensures At([' '] + r.condition + [' '], SEPARATOR, j) <==>
              At(PrintRule(r), SEPARATOR, j + 2) && j + 2 + 6 <= |r.condition| + 4
  {
  }

  lemma FirstSeparator(r: Rule)
    ensures At(PrintRule(r), SEPARATOR, |r.condition| + 3)
    ensures IndexOf(PrintRule(r), SEPARATOR) == Some(|r.condition| + 3) <==>
              !Contains([' '] + r.condition + [' '], SEPARATOR)
  {
    var s, inner := PrintRule(r), [' '] + r.condition + [' '];
    IndexOfFirst(s, SEPARATOR);
    var k := |r.condition| + 3;
    assert s[k..k + 6] == SEPARATOR;
    assert At(s, SEPARATOR, k);
    forall j: nat | At(inner, SEPARATOR, j)
      ensures IndexOf(s, SEPARATOR) != Some(k)
    {
      InnerOccurrence(r, j);
      assert At(s, SEPARATOR, j + 2);
    }
    var first := IndexOf(s, SEPARATOR);
    assert first.Some?;
    if first.value < k {
      SeparatorOverlap(s, first.value, k);
      assert s[first.value] == s[first.value..first.value + 6][0] == ' ';
      assert s[0] == 'i' && s[1] == 'f';
      InnerOccurrence(r, first.value - 2);
    }
  }

  /**
   A printed rule, behind any blanks, is read back as exactly its condition and action if and only if the
   condition, with a blank on either side, does not contain the separator.
   */
  lemma RuleRoundTrip(lead: string, r: Rule)
    requires Blank(lead)
    requires Fits(r.condition) && Fits(r.action)
    ensures ParseRule(lead + PrintRule(r)) == Some(r) <==> !Contains([' '] + r.condition + [' '], SEPARATOR)
  {
    SkipLead(lead, PrintRule(r));
    FirstSeparator(r);
    CutAtSeparator(r);
  }

  lemma PrintedParts(r: Rule)
    ensures var s, k := PrintRule(r), |r.condition| + 3;
            && SkipBlanks(s) == s && "if " <= s
            && At(s, SEPARATOR, k) && s[3..k] == r.condition && s[k + 6..] == r.action
  {
    var s, k := PrintRule(r), |r.condition| + 3;
    assert s[0] == 'i' && "if " <= s;
    assert s[k..k + 6] == SEPARATOR;
  }

  /** The printed rule is cut back into r exactly when its first separator is the printed one. */
  lemma CutAtSeparator(r: Rule)
    requires r.condition != [] && r.action != []
    ensures SkipBlanks(PrintRule(r)) == PrintRule(r)
    ensures ParseRule(PrintRule(r)) == Some(r) <==> IndexOf(PrintRule(r), SEPARATOR) == Some(|r.condition| + 3)
  {
    var s, k := PrintRule(r), |r.condition| + 3;
    PrintedParts(r);
    IndexOfFirst(s, SEPARATOR);
    var t := IndexOf(s, SEPARATOR).value;
    var condition := if t < 3 then s[3..] else s[3..t];
    assert t <= k && (t < k ==> |condition| != |r.condition|);
    assert ParseRule(s) == Some(Rule(condition, s[t + 6..])) || condition == [];
  }

  lemma {:induction false} SkipLead(lead: string, s: string)
    requires Blank(lead)
    requires s == [] || (s[0] != ' ' && s[0] != '\t')
    ensures SkipBlanks(lead + s) == s
  {
    if lead == [] {
      assert lead + s == s;
    } else {
      assert lead[0] in lead && forall c | c in lead[1..] :: c in lead;
      assert (lead + s)[1..] == lead[1..] + s;
      SkipLead(lead[1..], s);
    }
  }

  // ---------------------------------------------------------------- whole files

  /** The rules of the lines that are accepted, in order. */
  function Parsed(chunks: seq<string>): seq<Rule> {
    if chunks == [] then []
    else
      var rest := Parsed(chunks[1..]);
      match ParseRule(LineText(chunks[0]))
      case None => rest
      case Some(r) => [r] + rest
  }

  function Accepted(file: string): seq<Rule> {
    Parsed(Chunks(file))
  }

  /** The printed rule is a line, and fits the line buffer. */
  predicate PrintFits(r: Rule) {
    Fits(r.condition) && Fits(r.action) && |PrintRule(r)| <= LINE - 1
  }

  /** The condition does not bring a separator of its own. */
  ghost predicate Separable(r: Rule) {
    !Contains([' '] + r.condition + [' '], SEPARATOR)
  }

  function PrintFile(rules: seq<Rule>): string {
    if rules == [] then [] else PrintRule(rules[0]) + ['\n'] + PrintFile(rules[1..])
  }

  function Found(parsed: Option<Rule>): seq<Rule> {
    match parsed case None => [] case Some(r) => [r]
  }

  /** A line in front of a file adds its rule, if it has one. */
  lemma AcceptedLine(line: string, rest: string)
    requires '\n' !in line && |line| <= LINE - 1
    ensures Accepted(line + ['\n'] + rest) == Found(ParseRule(LineText(line))) + Accepted(rest)
  {
    ChunksLine(line, rest);
    LineTextNewline(line);
    var chunks := Chunks(line + ['\n'] + rest);
    if |line| < LINE - 1 {
      assert chunks[1..] == Chunks(rest);
    } else {
      assert chunks[1..] == [['\n']] + Chunks(rest) && chunks[1..][1..] == Chunks(rest);
      assert LineText(['\n']) == [] && ParseRule([]) == None;
      assert Parsed(chunks[1..]) == Parsed(Chunks(rest));
      assert chunks[0] == line;
    }
  }

  // ---------------------------------------------------------------- which lines are rules

  predicate Blank(lead: string) {
    forall c | c in lead :: c == ' ' || c == '\t'
  }

  /**
   s, a line without its leading blanks, is the rule r: either "if ", condition, " then ", action, with the
   first separator there is, or a line that starts with "if then ", which is its own condition.
   */
  ghost predicate IsRule(s: string, r: Rule) {
    && r.action != [] && r.condition != []
    && ((s == "if " + r.condition + " then " + r.action && !Contains(" " + r.condition + " ", " then ")) ||
        (s == "if then " + r.action && r.condition == "then " + r.action))
  }

  /** For all texts: what is accepted is exactly the rules. */
  lemma AcceptsExactly(lead: string, s: string, r: Rule)
    requires Blank(lead) && (s == [] || (s[0] != ' ' && s[0] != '\t'))
    ensures ParseRule(lead + s) == Some(r) <==> IsRule(s, r)
  {
    LeadIsSkipped(lead, s);
    if IsRule(s, r) {
      RuleIsAccepted(s, r);
    }
    if ParseRule(s) == Some(r) {
      AcceptedIsRule(s, r);
    }
  }

  lemma LeadIsSkipped(lead: string, s: string)
    requires Blank(lead) && (s == [] || (s[0] != ' ' && s[0] != '\t'))
    ensures ParseRule(lead + s) == ParseRule(s) && SkipBlanks(s) == s
  {
    SkipLead(lead, s);
  }

  lemma RuleIsAccepted(s: string, r: Rule)
    requires IsRule(s, r)
    ensures ParseRule(s) == Some(r)
  {
    if s == "if then " + r.action && r.condition == "then " + r.action {
      assert s[2..8] == SEPARATOR;
      assert s[0] == 'i' && s[1] == 'f';
      forall j: nat | j < 2
        ensures !At(s, SEPARATOR, j)
      {
        NotAt(s, SEPARATOR, j, 0);
      }
      IndexOfIs(s, SEPARATOR, 2);
      assert s[3..] == r.condition && s[2 + 6..] == r.action;
      assert s[..3] == "if ";
    } else {
      assert s == PrintRule(r) && " " + r.condition + " " == [' '] + r.condition + [' '];
      FirstSeparator(r);
      CutAtSeparator(r);
    }
  }

  lemma AcceptedIsRule(s: string, r: Rule)
    requires ParseRule(s) == Some(r) && SkipBlanks(s) == s
    ensures IsRule(s, r)
  {
    IndexOfFirst(s, SEPARATOR);
    var t := IndexOf(s, SEPARATOR).value;
    assert "if " <= s && At(s, SEPARATOR, t);
    if t < 3 {
      EarlySeparator(s, t);
    } else {
      assert r == Rule(s[3..t], s[t + 6..]);
      LateSeparator(s, t);
      assert s == PrintRule(r) && " " + r.condition + " " == [' '] + r.condition + [' '];
      FirstSeparator(r);
    }
  }

  lemma EarlySeparator(s: string, t: nat)
    requires "if " <= s && At(s, SEPARATOR, t) && t < 3
    ensures t == 2 && s == "if then " + s[8..] && s[3..] == "then " + s[8..]
  {
    assert s[..3] == "if " && s[0] == s[..3][0] && s[1] == s[..3][1];
    assert s[t] == s[t..t + 6][0] == ' ';
    assert t == 2;
    assert s == s[..2] + s[2..8] + s[8..] && s[..2] == s[..3][..2];
    assert s[3..] == s[2..8][1..] + s[8..];
  }

  lemma LateSeparator(s: string, t: nat)
    requires "if " <= s && At(s, SEPARATOR, t) && t >= 3
    ensures s == PrintRule(Rule(s[3..t], s[t + 6..]))
  {
    assert s == s[..3] + s[3..t] + s[t..t + 6] + s[t + 6..];
  }

  /** A line that is no rule, or has a NUL in front of what would make it one, is skipped. */
  lemma OthersAreSkipped(lead: string, s: string, line: string, rest: string)
    requires '\n' !in line && |line| <= 511 && LineText(line) == lead + s
    requires Blank(lead) && (s == [] || (s[0] != ' ' && s[0] != '\t'))
    ensures Accepted(line + ['\n'] + rest) == Accepted(rest) <==> !exists r :: IsRule(s, r)
  {
    AcceptedLine(line, rest);
    var parsed := ParseRule(lead + s);
    if parsed.Some? {
      AcceptsExactly(lead, s, parsed.value);
      assert |Accepted(line + ['\n'] + rest)| == 1 + |Accepted(rest)|;
    } else {
      forall r
        ensures !IsRule(s, r)
      {
        AcceptsExactly(lead, s, r);
      }
    }
  }

  lemma PrintedFirst(r: Rule, rest: string)
    requires PrintFits(r)
    ensures Accepted(PrintRule(r) + ['\n'] + rest) == Found(ParseRule(PrintRule(r))) + Accepted(rest)
    ensures ParseRule(PrintRule(r)) == Some(r) <==> Separable(r)
  {
    LineTextBare(PrintRule(r));
    AcceptedLine(PrintRule(r), rest);
    FirstSeparator(r);
    CutAtSeparator(r);
  }

  lemma {:induction false} PrintedAtMost(rules: seq<Rule>)
    requires forall r | r in rules :: PrintFits(r)
    ensures |Accepted(PrintFile(rules))| <= |rules|
  {
    if rules != [] {
      assert rules[0] in rules;
      PrintedFirst(rules[0], PrintFile(rules[1..]));
      PrintedAtMost(rules[1..]);
    }
  }

  /** Printed rules that fit the line buffer are read back as they are if and only if each of them is separable. */
  lemma {:induction false} FileRoundTrip(rules: seq<Rule>)
    requires forall r | r in rules :: PrintFits(r)
    ensures Accepted(PrintFile(rules)) == rules <==> forall r | r in rules :: Separable(r)
  {
    if rules != [] {
      var r, rest := rules[0], rules[1..];
      assert r in rules && rules == [r] + rest;
      PrintedFirst(r, PrintFile(rest));
      PrintedAtMost(rest);
      FileRoundTrip(rest);
      FirstDecides(r, rest, ParseRule(PrintRule(r)), Accepted(PrintFile(rest)));
    }
  }

  lemma FirstDecides(r: Rule, rest: seq<Rule>, parsed: Option<Rule>, others: seq<Rule>)
    requires |others| <= |rest|
    ensures Found(parsed) + others == [r] + rest <==> parsed == Some(r) && others == rest
  {
    var all := Found(parsed) + others;
    if parsed.Some? && all == [r] + rest {
      assert all[0] == r && all[1..] == others && ([r] + rest)[1..] == rest;
    }
  }

  /** What the parser accepts has fields without NUL or newline, both non-empty. */
  lemma AcceptedFits(text: string)
    requires '\0' !in text && '\n' !in text
    ensures var r := ParseRule(text); r.Some? ==> Fits(r.value.condition) && Fits(r.value.action)
  {
    SkipBlanksSuffix(text);
    var s := SkipBlanks(text);
    assert forall c | c in s :: c in text;
  }

  lemma {:induction false} ParsedFit(chunks: seq<string>)
    ensures forall r | r in Parsed(chunks) :: Fits(r.condition) && Fits(r.action)
  {
    if chunks != [] {
      LineTextEnds(chunks[0]);
      AcceptedFits(LineText(chunks[0]));
      ParsedFit(chunks[1..]);
    }
  }

  lemma {:induction false} SkipBlanksSuffix(text: string)
    ensures var s := SkipBlanks(text); |s| <= |text| && s == text[|text| - |s|..]
  {
    if text != [] {
      SkipBlanksSuffix(text[1..]);
    }
  }
}
