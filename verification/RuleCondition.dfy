/** Conditions of rules, evaluated against the payload of an event. */
module RuleCondition {
  import opened Options
  import opened CText
  import opened Words
  import opened Decimal

  const CONTAINS := "contains("
  const ANOMALY := "anomaly_score>"
  const SCORE := "score="
  const COMM := "comm=="

  /** The memory at the payload pointer; its first len characters are the payload, a NUL is somewhere. */
  datatype Payload = Payload(mem: string, len: nat) {
    predicate Valid() { len <= |mem| && '\0' in mem }
  }

  /** The text between quotes: a single quote is looked for first, then a double one. */
  function BetweenQuotes(at: string): Option<string> {
    var single := IndexOf(at, ['\'']);
    var start := if single.Some? then single else IndexOf(at, ['"']);
    match start
    case None => None
    case Some(q) =>
      match IndexOf(at[q + 1..], [at[q]])
      case None => None
      case Some(end) => Some(at[q + 1..][..end])
  }

  /** The text between the quotes after "contains(". */
  function QuotedText(cond: string): Option<string> {
    match IndexOf(cond, CONTAINS)
    case None => None
    case Some(c) => BetweenQuotes(cond[c..])
  }

  function MatchesContains(cond: string, blob: Payload): bool
    requires blob.Valid()
  {
    match QuotedText(cond)
    case None => false
    case Some(text) => blob.len > 0 && IndexOf(blob.mem[..blob.len], text).Some?
  }

  /** None when the condition or the payload has no score, and evaluation goes on. */
  function MatchesScore(cond: string, blob: Payload): Option<bool>
    requires blob.Valid()
  {
    match After(cond, ANOMALY)
    case None => None
    case Some(threshold) =>
      if blob.len == 0 then None
      else
        match After(CStr(blob.mem), SCORE)
        case None => None
        case Some(score) => Some(Atoi(score) > Atoi(threshold))
  }

  /** One quote at the start is skipped, but not the one that closes it. */
  function Unquoted(val: string): string {
    if val != [] && (val[0] == '\'' || val[0] == '"') then val[1..] else val
  }

  function MatchesComm(cond: string, blob: Payload): bool
    requires blob.Valid()
  {
    match After(cond, COMM)
    case None => false
    case Some(val) => blob.len > 0 && IndexOf(CStr(blob.mem), Unquoted(val)).Some?
  }

  /** blob is None for a NULL payload. */
  function Evaluate(cond: string, blob: Option<Payload>): bool
    requires blob.Some? ==> blob.value.Valid()
  {
    match blob
    case None => false
    case Some(b) =>
      if MatchesContains(cond, b) then true
      else
        match MatchesScore(cond, b)
        case Some(fires) => fires
        case None => MatchesComm(cond, b)
  }

  /** "anomaly_score>T" on a payload whose first "score=" is followed by S fires exactly when S > T. */
  lemma AnomalyFires(t: int, score: int, before: string, after: string, len: nat)
    requires INT_MIN <= t <= INT_MAX && INT_MIN <= score <= INT_MAX
    requires '\0' !in before && '\0' in after && !IsDigit(after[0])
    requires var mem := before + SCORE + Print(score) + after;
             0 < len <= |mem| && IndexOf(CStr(mem), SCORE) == Some(|before|)
    ensures Evaluate(ANOMALY + Print(t), Some(Payload(before + SCORE + Print(score) + after, len))) <==> score > t
  {
    var blob := Payload(before + SCORE + Print(score) + after, len);
    assert '\0' in blob.mem;
    ThresholdOf(t);
    ScoreOf(score, before, after);
  }

  lemma ThresholdOf(t: int)
    requires INT_MIN <= t <= INT_MAX
    ensures IndexOf(ANOMALY + Print(t), CONTAINS) == None
    ensures After(ANOMALY + Print(t), ANOMALY).Some? && Atoi(After(ANOMALY + Print(t), ANOMALY).value) == t
  {
    var cond := ANOMALY + Print(t);
    PrintHasNo(t, '(');
    NotInConcat(ANOMALY, Print(t), '(');
    IndexOfMissing(cond, CONTAINS, 8);
    assert cond[0..|ANOMALY|] == ANOMALY && cond[|ANOMALY|..] == Print(t) + [];
    IndexOfIs(cond, ANOMALY, 0);
    AtoiPrint(t, []);
  }

  lemma PayloadAround(before: string, digits: string, after: string)
    requires '\0' !in before && '\0' !in digits
    ensures var payload := CStr(before + SCORE + digits + after);
            && |before| + |SCORE| <= |payload|
            && payload[|before| + |SCORE|..] == digits + CStr(after)
  {
    var intro := before + SCORE;
    NotInConcat(before, SCORE, '\0');
    NotInConcat(intro, digits, '\0');
    CStrAppend(intro + digits, after);
    DropPrefix(intro, digits, CStr(after));
  }

  lemma ScoreOf(score: int, before: string, after: string)
    requires INT_MIN <= score <= INT_MAX
    requires '\0' !in before && '\0' in after && !IsDigit(after[0])
    ensures var payload := CStr(before + SCORE + Print(score) + after);
            && |before| + |SCORE| <= |payload|
            && Atoi(payload[|before| + |SCORE|..]) == score
  {
    PrintHasNo(score, '\0');
    PayloadAround(before, Print(score), after);
    AtoiPrint(score, CStr(after));
  }

  // ---------------------------------------------------------------- contains()

  /** A contains() condition on text between the quotes q. */
  function Quoted(q: char, text: string): string {
    CONTAINS + [q] + text + [q] + ")"
  }

  predicate IsQuote(q: char) { q == '\'' || q == '"' }

  /** Single quotes are looked for first, so a text in double quotes must not contain one. */
  predicate Quotable(q: char, text: string) {
    q !in text && (q == '"' ==> '\'' !in text)
  }

  /** The name that "comm==" inside a quoted text is taken to look for; the closing quote belongs to it. */
  function StrayName(q: char, rest: string): string {
    Unquoted(rest + [q] + ")")
  }

  /** Whether an operator found inside the quoted text fires on a payload string. */
  predicate StrayFires(q: char, text: string, payload: string) {
    if After(text, ANOMALY).Some? && After(payload, SCORE).Some? then
      Atoi(After(payload, SCORE).value) > Atoi(After(text, ANOMALY).value)
    else
      && After(text, COMM).Some?
      && IndexOf(payload, StrayName(q, After(text, COMM).value)).Some?
  }

  /**
   No operator inside the text can fire: there is none, or there is a score that no int exceeds, and either
   no name or one that itself brings a score.
   */
  predicate Harmless(q: char, text: string) {
    match After(text, ANOMALY)
    case None => After(text, COMM).None?
    case Some(threshold) =>
      && Atoi(threshold) == INT_MAX
      && (After(text, COMM).None? || IndexOf(StrayName(q, After(text, COMM).value), SCORE).Some?)
  }

  /** Neither what is before the text nor what is behind it can be part of an operator. */
  lemma OperatorOutside(q: char, text: string, op: string, j: nat)
    requires IsQuote(q) && (op == ANOMALY || op == COMM)
    requires j < 10 || j + |op| > 10 + |text|
    ensures !At(Quoted(q, text), op, j)
  {
    var s := Quoted(q, text);
    if j + |op| <= |s| {
      assert s[9] == q && s[10 + |text|] == q && q !in op;
      var k := if j >= 10 then 10 + |text| - j else if j + |op| > 9 then 9 - j else 4;
      NotAt(s, op, j, k);
    }
  }

  /** An operator is found in the quoted condition exactly when it is in the text. */
  lemma QuotedAfter(q: char, text: string, op: string)
    requires IsQuote(q) && (op == ANOMALY || op == COMM)
    ensures After(Quoted(q, text), op) ==
              match After(text, op) case None => None case Some(rest) => Some(rest + ([q] + ")"))
  {
    var pre, post := CONTAINS + [q], [q] + ")";
    assert pre + text + post == Quoted(q, text);
    forall j: nat | At(pre + text + post, op, j)
      ensures |pre| <= j && j + |op| <= |pre| + |text|
    {
      if j < 10 || j + |op| > 10 + |text| {
        OperatorOutside(q, text, op, j);
      }
    }
    AfterInside(pre, text, post, op);
  }

  /** Evaluating a quoted condition: the quoted text, or an operator inside it. */
  lemma QuotedEvaluates(q: char, text: string, blob: Payload)
    requires IsQuote(q) && blob.Valid() && blob.len > 0
    ensures Evaluate(Quoted(q, text), Some(blob)) <==>
              MatchesContains(Quoted(q, text), blob) || StrayFires(q, text, CStr(blob.mem))
  {
    QuotedAfter(q, text, ANOMALY);
    QuotedAfter(q, text, COMM);
    if After(text, ANOMALY).Some? {
      AtoiStops(After(text, ANOMALY).value, [q] + ")");
    }
    if After(text, COMM).Some? {
      var rest := After(text, COMM).value;
      assert rest + ([q] + ")") == rest + [q] + ")";
    }
  }

  /** contains('text') or contains("text") fires exactly when the payload contains text or a stray operator fires. */
  lemma ContainsFires(q: char, text: string, blob: Payload)
    requires IsQuote(q) && Quotable(q, text) && blob.Valid() && blob.len > 0
    ensures Evaluate(Quoted(q, text), Some(blob)) <==>
              Contains(blob.mem[..blob.len], text) || StrayFires(q, text, CStr(blob.mem))
  {
    QuotedEvaluates(q, text, blob);
    ContainsReads(q, text);
    IndexOfFirst(blob.mem[..blob.len], text);
  }

  lemma ContainsReads(q: char, text: string)
    requires IsQuote(q) && Quotable(q, text)
    ensures QuotedText(Quoted(q, text)) == Some(text)
  {
    OpensReads(Quoted(q, text), [], [], q, text, ")");
  }

  /**
   The condition is pre, "contains(" for the first time, mid, t between quotes q, and post. A single quote
   behind "contains(" always opens the text; a double one does if there is no single one.
   */
  ghost predicate Opens(cond: string, pre: string, mid: string, q: char, t: string, post: string) {
    && cond == pre + "contains(" + mid + [q] + t + [q] + post
    && (forall j: nat | j < |pre| :: !At(cond, "contains(", j))
    && (q == '\'' || (q == '"' && '\'' !in mid && '\'' !in t && '\'' !in post))
    && q !in mid && q !in t
  }

  /** For every condition: the text that is looked for is the one that the quotes around it open. */
  lemma QuotedTextExactly(cond: string, t: string)
    ensures QuotedText(cond) == Some(t) <==> exists pre, mid, q, post :: Opens(cond, pre, mid, q, t, post)
  {
    if QuotedText(cond) == Some(t) {
      var pre, mid, q, post := OpensAt(cond, t);
    }
    if exists pre, mid, q, post :: Opens(cond, pre, mid, q, t, post) {
      var pre, mid, q, post :| Opens(cond, pre, mid, q, t, post);
      OpensReads(cond, pre, mid, q, t, post);
    }
  }

  /** A string cut in two at the first q, which is dropped. */
  lemma CutAtChar(s: string, q: char) returns (head: string, tail: string)
    requires IndexOf(s, [q]).Some?
    ensures s == head + [q] + tail && q !in head && IndexOf(s, [q]) == Some(|head|)
    ensures s[..|head|] == head && s[|head| + 1..] == tail && s[|head|] == q
  {
    FoundChar(s, q);
    var i := IndexOf(s, [q]).value;
    head, tail := s[..i], s[i + 1..];
  }

  lemma QuotesAt(at: string, t: string) returns (head: string, q: char, post: string)
    requires BetweenQuotes(at) == Some(t)
    ensures at == head + [q] + (t + [q] + post) && IsQuote(q) && q !in head && q !in t
    ensures q == '"' ==> '\'' !in head && '\'' !in t && '\'' !in post
    ensures '\'' in at ==> q == '\''
  {
    FoundChar(at, '\'');
    q := if IndexOf(at, ['\'']).Some? then '\'' else '"';
    var tail, text;
    head, tail := CutAtChar(at, q);
    text, post := CutAtChar(tail, q);
  }

  lemma QuotesRead(head: string, q: char, t: string, post: string)
    requires IsQuote(q) && q !in head && q !in t && (q == '"' ==> '\'' !in head && '\'' !in t && '\'' !in post)
    ensures BetweenQuotes(head + [q] + (t + [q] + post)) == Some(t)
  {
    var behind := t + [q] + post;
    var at := head + [q] + behind;
    FirstChar(at, q, |head|);
    if q == '"' {
      NotInConcat(t + [q], post, '\'');
      NotInConcat(head + [q], behind, '\'');
      IndexOfMissing(at, ['\''], 0);
    }
    FirstChar(behind, q, |t|);
    assert at[|head| + 1..] == behind && behind[..|t|] == t;
  }

  lemma OpensAt(cond: string, t: string) returns (pre: string, mid: string, q: char, post: string)
    requires QuotedText(cond) == Some(t)
    ensures Opens(cond, pre, mid, q, t, post)
  {
    IndexOfFirst(cond, CONTAINS);
    var c := IndexOf(cond, CONTAINS).value;
    var at, head := cond[c..], [];
    head, q, post := QuotesAt(at, t);
    mid := AfterContains(at, head, q, t + [q] + post);
    pre := cond[..c];
    assert cond == pre + at;
    Unfold(pre, mid, q, t, post);
  }

  lemma Unfold(pre: string, mid: string, q: char, t: string, post: string)
    ensures pre + "contains(" + mid + [q] + t + [q] + post == pre + (CONTAINS + mid + [q] + (t + [q] + post))
  {
  }

  lemma AfterContains(at: string, head: string, q: char, tail: string) returns (mid: string)
    requires at == head + [q] + tail && IsQuote(q) && |at| >= 9 && at[..9] == CONTAINS
    ensures head == CONTAINS + mid && forall x | x in mid :: x in head
  {
    assert forall k | 0 <= k < 9 :: at[k] == at[..9][k] == CONTAINS[k];
    assert at[|head|] == q;
    mid := head[9..];
    assert head[..9] == at[..9];
  }

  lemma OpensReads(cond: string, pre: string, mid: string, q: char, t: string, post: string)
    requires Opens(cond, pre, mid, q, t, post)
    ensures QuotedText(cond) == Some(t)
  {
    var at := CONTAINS + mid + [q] + (t + [q] + post);
    Unfold(pre, mid, q, t, post);
    assert cond == pre + at && cond[|pre|..] == at;
    assert cond[|pre|..|pre| + 9] == at[..9] == CONTAINS;
    IndexOfIs(cond, CONTAINS, |pre|);
    QuotesRead(CONTAINS + mid, q, t, post);
  }

  lemma FirstChar(s: string, c: char, i: nat)
    requires i < |s| && s[i] == c && forall j: nat | j < i :: s[j] != c
    ensures IndexOf(s, [c]) == Some(i)
  {
    assert s[i..i + 1] == [c];
    forall j: nat | j < i
      ensures !At(s, [c], j)
    {
      assert s[j..j + 1][0] == s[j];
    }
    IndexOfIs(s, [c], i);
  }

  /** Searching for a character: what comes before it does not have it. */
  lemma FoundChar(s: string, c: char)
    ensures match IndexOf(s, [c])
            case None => c !in s
            case Some(i) => s[i] == c && c !in s[..i]
  {
    IndexOfFirst(s, [c]);
    forall j: nat | j < |s| && s[j] == c
      ensures At(s, [c], j)
    {
      assert s[j..j + 1] == [c];
    }
    if IndexOf(s, [c]).Some? {
      var i := IndexOf(s, [c]).value;
      assert s[i] == s[i..i + 1][0] == c;
    }
  }

  /** A text that cannot be quoted with q contains a quote that the text read between the quotes does not. */
  lemma UnquotableReads(q: char, text: string)
    requires IsQuote(q) && !Quotable(q, text)
    ensures QuotedText(Quoted(q, text)).Some? ==>
              exists c :: IsQuote(c) && c in text && c !in QuotedText(Quoted(q, text)).value
  {
    var cond := Quoted(q, text);
    assert cond[0..|CONTAINS|] == CONTAINS;
    IndexOfIs(cond, CONTAINS, 0);
    assert cond[0..] == cond;
    assert '\'' in cond <==> q == '\'' || '\'' in text;
    if QuotedText(cond).Some? {
      var head, c, post := QuotesAt(cond, QuotedText(cond).value);
      assert cond[|head|] == c;
      assert c in text;
    }
  }

  lemma HarmlessNeverFires(q: char, text: string, payload: string)
    requires Harmless(q, text)
    ensures !StrayFires(q, text, payload)
  {
    if After(text, ANOMALY).Some? && After(text, COMM).Some? && After(payload, SCORE).None? {
      var name := StrayName(q, After(text, COMM).value);
      IndexOfFirst(payload, name);
      IndexOfFirst(name, SCORE);
      IndexOfFirst(payload, SCORE);
      if Contains(payload, name) {
        ContainsTransitive(payload, name, SCORE);
      }
    }
  }

  /** A payload that is the string s. */
  function Blob(s: string): Payload {
    Payload(s + "\0", |s|)
  }

  lemma BlobReads(s: string)
    requires '\0' !in s
    ensures Blob(s).Valid() && CStr(Blob(s).mem) == s && Blob(s).mem[..Blob(s).len] == s
  {
    assert Blob(s).mem[|s|] == '\0';
    CStrTerminated(s);
  }

  /** The payload "score=2147483647", above any other threshold. */
  lemma HighScore() returns (payload: string)
    ensures payload != [] && '\0' !in payload && '>' !in payload
    ensures After(payload, SCORE).Some? && Atoi(After(payload, SCORE).value) == INT_MAX
  {
    var digits := Print(INT_MAX);
    payload := SCORE + digits;
    PrintHasNo(INT_MAX, '>');
    PrintHasNo(INT_MAX, '\0');
    assert payload[0..|SCORE|] == SCORE && payload[|SCORE|..] == digits + [];
    IndexOfIs(payload, SCORE, 0);
    AtoiPrint(INT_MAX, []);
  }

  /** The name that a stray "comm==" looks for is shorter than the text. */
  lemma StrayNameIsShort(q: char, text: string)
    requires IsQuote(q) && '\0' !in text && After(text, COMM).Some?
    ensures var name := StrayName(q, After(text, COMM).value); 0 < |name| < |text| && '\0' !in name
  {
    var rest := After(text, COMM).value;
    assert forall c | c in rest :: c in text;
    NotInConcat(rest, [q] + ")", '\0');
    assert rest + [q] + ")" == rest + ([q] + ")");
    assert forall c | c in StrayName(q, rest) :: c in rest + [q] + ")";
  }

  /** When an operator in the text can fire, it does so on some payload without the text. */
  lemma Misfires(q: char, text: string) returns (payload: string)
    requires IsQuote(q) && '\0' !in text && !Harmless(q, text)
    ensures payload != [] && '\0' !in payload
    ensures StrayFires(q, text, payload) && !Contains(payload, text)
  {
    if After(text, ANOMALY).Some? && Atoi(After(text, ANOMALY).value) < INT_MAX {
      payload := HighScore();
      OperatorIn(text);
      ContainsLacks(payload, text, '>');
    } else {
      StrayNameIsShort(q, text);
      payload := StrayName(q, After(text, COMM).value);
      assert payload[0..|payload|] == payload;
      IndexOfIs(payload, payload, 0);
    }
  }

  lemma OperatorIn(text: string)
    requires IndexOf(text, ANOMALY).Some?
    ensures '>' in text
  {
    IndexOfFirst(text, ANOMALY);
    var i := IndexOf(text, ANOMALY).value;
    assert text[i + 13] == text[i..i + |ANOMALY|][13] == '>';
  }

  /** A text that cannot be quoted is not what the condition looks for. */
  lemma MisreadQuotes(q: char, text: string) returns (payload: string)
    requires IsQuote(q) && '\0' !in text && !Quotable(q, text)
    ensures payload != [] && '\0' !in payload
    ensures Blob(payload).Valid()
    ensures MatchesContains(Quoted(q, text), Blob(payload)) != Contains(payload, text)
  {
    var read := QuotedText(Quoted(q, text));
    UnquotableReads(q, text);
    QuotedTextIsShort(Quoted(q, text));
    if read.None? {
      payload := text;
      BlobReads(payload);
      assert At(payload, text, 0);
    } else {
      payload := read.value + "x";
      BlobReads(payload);
      var c :| IsQuote(c) && c in text && c !in read.value;
      ContainsLacks(payload, text, c);
      assert At(payload, read.value, 0);
      IndexOfFirst(payload, read.value);
    }
  }

  /** The condition fires on exactly the payloads that contain the text. */
  ghost predicate MeansContains(q: char, text: string) {
    forall blob: Payload | blob.Valid() ::
      Evaluate(Quoted(q, text), Some(blob)) <==> Contains(blob.mem[..blob.len], text)
  }

  /**
   A contains() condition means what it says on all payloads exactly when the text is not empty, does not
   contain its quotes, and no operator inside it can fire.
   */
  lemma ContainsMeansContainment(q: char, text: string)
    requires IsQuote(q) && '\0' !in text
    ensures MeansContains(q, text) <==> text != [] && Quotable(q, text) && Harmless(q, text)
  {
    if text == [] {
      var blob := Payload("\0", 0);
      assert blob.mem[0] == '\0' && blob.Valid();
      assert At(blob.mem[..0], text, 0);
      assert !MatchesContains(Quoted(q, text), blob);
    } else if !Harmless(q, text) {
      var payload := Misfires(q, text);
      BlobReads(payload);
      QuotedEvaluates(q, text, Blob(payload));
    } else if !Quotable(q, text) {
      var payload := MisreadQuotes(q, text);
      BlobReads(payload);
      QuotedEvaluates(q, text, Blob(payload));
      HarmlessNeverFires(q, text, payload);
    } else {
      forall blob: Payload | blob.Valid()
        ensures Evaluate(Quoted(q, text), Some(blob)) <==> Contains(blob.mem[..blob.len], text)
      {
        if blob.len > 0 {
          ContainsFires(q, text, blob);
          HarmlessNeverFires(q, text, CStr(blob.mem));
        }
      }
    }
  }

  /** For instance contains('comm==a') fires although the payload does not contain the text. */
  lemma ContainsFallsThrough(blob: Payload)
    requires blob == Payload("a')" + "\0", 3)
    ensures blob.Valid()
    ensures Evaluate(Quoted('\'', COMM + "a"), Some(blob))
    ensures !Contains(blob.mem[..blob.len], COMM + "a")
  {
    var text := COMM + "a";
    assert blob.mem[3] == '\0';
    IndexOfMissing(text, ANOMALY, 13);
    assert text[0..|COMM|] == COMM && text[|COMM|..] == "a";
    IndexOfIs(text, COMM, 0);
    CStrTerminated("a')");
    assert StrayName('\'', "a") == "a')";
    IndexOfIs("a')", "a')", 0);
    QuotedEvaluates('\'', text, blob);
  }

  // ---------------------------------------------------------------- comm==

  lemma CommAfter(name: string)
    ensures After(COMM + name, COMM) == Some(name) && After(COMM + name, ANOMALY) == After(name, ANOMALY)
  {
    var cond := COMM + name;
    assert cond[0..|COMM|] == COMM && cond[|COMM|..] == name;
    IndexOfIs(cond, COMM, 0);
    assert cond + [] == cond;
    forall j: nat | At(cond, ANOMALY, j)
      ensures |COMM| <= j
    {
      if j < |COMM| {
        NotAt(cond, ANOMALY, j, 5 - j);
      }
    }
    AfterInside(COMM, name, [], ANOMALY);
    if After(name, ANOMALY).Some? {
      assert After(name, ANOMALY).value + [] == After(name, ANOMALY).value;
    }
  }

  /** What other operators in a comm== condition decide, if they do: they are looked for first. */
  function Elsewhere(name: string, blob: Payload): Option<bool>
    requires blob.Valid()
  {
    if MatchesContains(COMM + name, blob) then Some(true)
    else if After(name, ANOMALY).Some? && After(CStr(blob.mem), SCORE).Some? then
      Some(Atoi(After(CStr(blob.mem), SCORE).value) > Atoi(After(name, ANOMALY).value))
    else None
  }

  /**
   "comm==name", unless another operator in it decides, fires exactly when name, without an opening quote,
   occurs anywhere in the payload string.
   */
  lemma CommFires(name: string, blob: Payload)
    requires blob.Valid() && blob.len > 0
    ensures Evaluate(COMM + name, Some(blob)) <==>
              match Elsewhere(name, blob)
              case Some(fires) => fires
              case None => Contains(CStr(blob.mem), Unquoted(name))
  {
    CommAfter(name);
    IndexOfFirst(CStr(blob.mem), Unquoted(name));
  }

  /** So comm=='name' looks for the name with the closing quote behind it. */
  lemma CommQuotedFires(q: char, name: string, quoted: string, blob: Payload)
    requires IsQuote(q) && quoted == [q] + name + [q] && blob.Valid() && blob.len > 0
    ensures Evaluate(COMM + quoted, Some(blob)) <==>
              match Elsewhere(quoted, blob)
              case Some(fires) => fires
              case None => Contains(CStr(blob.mem), name + [q])
  {
    assert Unquoted(quoted) == name + [q];
    CommFires(quoted, blob);
  }

  /** The condition fires on exactly the payload strings that contain the name. */
  ghost predicate MeansComm(name: string) {
    forall blob: Payload | blob.Valid() && blob.len > 0 ::
      Evaluate(COMM + name, Some(blob)) <==> Contains(CStr(blob.mem), name)
  }

  lemma QuotedTextIsShort(cond: string)
    ensures var t := QuotedText(cond);
            t.Some? ==> |t.value| + 11 <= |cond| && forall c | c in t.value :: c in cond
  {
    if QuotedText(cond).Some? {
      var at := cond[IndexOf(cond, CONTAINS).value..];
      var single := IndexOf(at, ['\'']);
      var i := if single.Some? then single.value else IndexOf(at, ['"']).value;
      IndexOfFirst(cond, CONTAINS);
      FoundChar(at, '\'');
      FoundChar(at, '"');
      assert at[..9] == CONTAINS;
      assert forall k | 0 <= k < 9 :: at[k] == at[..9][k] == CONTAINS[k];
    }
  }

  /** A payload on which contains() inside the name, or else a score, makes the condition wrong. */
  lemma CommStrays(name: string) returns (payload: string)
    requires '\0' !in name && (QuotedText(COMM + name).Some? || IndexOf(name, ANOMALY).Some?)
    ensures payload != [] && '\0' !in payload
    ensures Blob(payload).Valid() && Evaluate(COMM + name, Some(Blob(payload))) != Contains(payload, name)
  {
    var read := QuotedText(COMM + name);
    CommAfter(name);
    QuotedTextIsShort(COMM + name);
    if read.Some? {
      payload := read.value + "x";
      BlobReads(payload);
      assert At(payload, read.value, 0);
      IndexOfFirst(payload, read.value);
    } else if Atoi(After(name, ANOMALY).value) < INT_MAX {
      payload := HighScore();
      BlobReads(payload);
      OperatorIn(name);
      ContainsLacks(payload, name, '>');
    } else {
      payload := name + SCORE;
      BlobReads(payload);
      ScoreBehind(name);
      assert At(payload, name, 0);
    }
  }

  lemma ScoreBehind(name: string)
    ensures After(name + SCORE, SCORE).Some?
  {
    IndexOfFirst(name + SCORE, SCORE);
    assert At(name + SCORE, SCORE, |name|);
  }

  /** And one on which a quote in front of the name does. */
  lemma CommSkipsQuote(name: string) returns (blob: Payload)
    requires '\0' !in name && Unquoted(name) != name
    requires QuotedText(COMM + name).None? && IndexOf(name, ANOMALY).None?
    ensures blob.Valid() && blob.len > 0
    ensures Evaluate(COMM + name, Some(blob)) && !Contains(CStr(blob.mem), name)
  {
    var bare := Unquoted(name);
    BlobReads(bare);
    blob := Payload(bare + "\0", |bare| + 1);
    CommFires(name, blob);
    assert At(bare, bare, 0);
  }

  /**
   "comm==name" means that the payload contains the name exactly when the name does not start with a quote
   and no other operator is found in it.
   */
  lemma CommMeansName(name: string)
    requires '\0' !in name
    ensures MeansComm(name) <==>
              Unquoted(name) == name && IndexOf(name, ANOMALY).None? && QuotedText(COMM + name).None?
  {
    if Unquoted(name) == name && IndexOf(name, ANOMALY).None? && QuotedText(COMM + name).None? {
      forall blob: Payload | blob.Valid() && blob.len > 0
        ensures Evaluate(COMM + name, Some(blob)) <==> Contains(CStr(blob.mem), name)
      {
        CommFires(name, blob);
      }
    } else if QuotedText(COMM + name).Some? || IndexOf(name, ANOMALY).Some? {
      var payload := CommStrays(name);
      BlobReads(payload);
    } else {
      var blob := CommSkipsQuote(name);
    }
  }
}
