/** The rule table, the loader that grows it, and the loop that fires actions. */
module RuleEngine {
  import opened Options
  import opened Arithmetic
  import opened CText
  import opened RuleParser
  import opened RuleCondition

  type Field256 = s: string | |s| == 256 witness seq(256, _ => ' ')
  type Field128 = s: string | |s| == 128 witness seq(128, _ => ' ')

  /** One table entry as it lies in memory. */
  datatype Entry = Entry(condition: Field256, action: Field128)

  function BlankEntries(n: nat): seq<Entry> {
    seq(n, _ => Entry(seq(256, _ => ' '), seq(128, _ => ' ')))
  }

  /** e holds r the way strncpy writes it: the last byte of each field is whatever was there. */
  predicate Written(e: Entry, r: Rule) {
    e.condition[..255] == CText.Padded(r.condition, 255) && e.action[..127] == CText.Padded(r.action, 127)
  }

  /** A run of entries, byte by byte. */
  function Text(es: seq<Entry>): string {
    if es == [] then [] else es[0].condition + es[0].action + Text(es[1..])
  }

  /** The rule at the start of a run of entries: reading a C string does not stop at the end of its field. */
  function ReadEntry(es: seq<Entry>): Rule
    requires es != []
  {
    Rule(CStr(Text(es)), CStr(es[0].action + Text(es[1..])))
  }

  /** The first n rules of a table. */
  function ReadAll(es: seq<Entry>, n: nat): (rs: seq<Rule>)
    requires n <= |es|
    ensures |rs| == n && forall i | 0 <= i < n :: rs[i] == ReadEntry(es[i..])
  {
    seq(n, i requires 0 <= i < n => ReadEntry(es[i..]))
  }

  /** Without a NUL in them, a condition runs on into its action, and an action into the next rule. */
  lemma UnterminatedRunsOn(es: seq<Entry>)
    requires es != []
    ensures '\0' !in es[0].condition ==> ReadEntry(es).condition == es[0].condition + ReadEntry(es).action
    ensures '\0' !in es[0].action && |es| > 1 ==>
              ReadEntry(es).action == es[0].action + ReadEntry(es[1..]).condition
  {
    assert Text(es) == es[0].condition + (es[0].action + Text(es[1..]));
    if '\0' !in es[0].condition {
      CStrAppend(es[0].condition, es[0].action + Text(es[1..]));
    }
    if '\0' !in es[0].action {
      CStrAppend(es[0].action, Text(es[1..]));
    }
  }

  lemma WrittenReads(es: seq<Entry>, r: Rule)
    requires es != [] && Written(es[0], r) && '\0' !in r.condition && '\0' !in r.action
    requires |r.condition| <= 254 && |r.action| <= 126
    ensures ReadEntry(es) == r && '\0' in es[0].action
  {
    var e, rest := es[0], Text(es[1..]);
    assert e.condition == e.condition[..255] + e.condition[255..] && e.action == e.action[..127] + e.action[127..];
    assert Text(es) == CText.Padded(r.condition, 255) + (e.condition[255..] + e.action + rest);
    assert e.action + rest == CText.Padded(r.action, 127) + (e.action[127..] + rest);
    PaddedReads(r.condition, 255, e.condition[255..] + e.action + rest);
    PaddedReads(r.action, 127, e.action[127..] + rest);
    assert e.action[126] == CText.Padded(r.action, 127)[126] == '\0';
  }

  // ---------------------------------------------------------------- firing

  /** The actions of the matching rules, in order. */
  function Fired(rules: seq<Rule>, blob: Option<Payload>): seq<string>
    requires blob.Some? ==> blob.value.Valid()
  {
    if rules == [] then []
    else if Evaluate(rules[0].condition, blob) then [rules[0].action] + Fired(rules[1..], blob)
    else Fired(rules[1..], blob)
  }

  lemma {:induction false} FiredSnoc(rules: seq<Rule>, r: Rule, blob: Option<Payload>)
    requires blob.Some? ==> blob.value.Valid()
    ensures Fired(rules + [r], blob) ==
              Fired(rules, blob) + (if Evaluate(r.condition, blob) then [r.action] else [])
  {
    if rules == [] {
      assert ([] + [r])[1..] == [];
    } else {
      FiredSnoc(rules[1..], r, blob);
      assert (rules + [r])[1..] == rules[1..] + [r];
    }
  }

  /** The record that the response engine keeps of an action. */
  function Message(action: string): string {
    "action=" + action + " target=auto reason=rule match"
  }

  /** It names the action first and the reason last, and tells actions apart. */
  lemma MessageTells(a: string, b: string)
    ensures "action=" + a + " target=auto" <= Message(a)
    ensures |Message(a)| == |a| + 37 && Message(a)[|a| + 19..] == " reason=rule match"
    ensures Message(a) == Message(b) ==> a == b
  {
    assert Message(a)[7..|Message(a)| - 30] == a && Message(b)[7..|Message(b)| - 30] == b;
  }

  /** The records that fit the response engine's buffer. */
  function Messages(actions: seq<string>): seq<string> {
    if actions == [] then []
    else
      var last := Message(actions[|actions| - 1]);
      Messages(actions[..|actions| - 1]) + (if |last| < 512 then [last] else [])
  }

  lemma ShortMessage(action: string)
    requires |action| <= 128
    ensures |Message(action)| < 512
  {
  }

  /** Actions that fit their fields are all recorded. */
  lemma {:induction false} ShortMessages(actions: seq<string>)
    requires forall a | a in actions :: |a| <= 128
    ensures Messages(actions) == seq(|actions|, i requires 0 <= i < |actions| => Message(actions[i]))
  {
    if actions != [] {
      var n := |actions| - 1;
      ShortMessages(actions[..n]);
      ShortMessage(actions[n]);
      assert Messages(actions) == Messages(actions[..n]) + [Message(actions[n])];
    }
  }

  /** The alerts table of the database; inserts fail while it is closed. */
  class AlertLog {
    var open: bool
    var alerts: seq<string>

    constructor (open: bool)
      ensures this.open == open && alerts == []
    {
      this.open, alerts := open, [];
    }

    /** response_engine_perform with target "auto" and reason "rule match". */
    method Perform(action: string) returns (ok: bool)
      modifies this`alerts
      ensures ok <==> |Message(action)| < 512 && open
      ensures alerts == if ok then old(alerts) + [Message(action)] else old(alerts)
    {
      var buf := Message(action);
      if |buf| >= 512 || !open {
        return false;
      }
      alerts := alerts + [buf];
      return true;
    }
  }

  /** The rules after the first added ones are those of the file from pos on. */
  ghost predicate Unread(file: string, pos: nat, rules: seq<Rule>, added: nat) {
    pos <= |file| && added <= |rules| && Accepted(file[pos..]) == rules[added..]
  }

  lemma UnreadStart(file: string)
    ensures Unread(file, 0, Accepted(file), 0)
  {
  }

  lemma UnreadEnd(file: string, rules: seq<Rule>, added: nat)
    requires Unread(file, |file|, rules, added)
    ensures added == |rules|
  {
  }

  /** Taking one chunk off a file takes its rule, if it has one, off the accepted rules. */
  lemma AcceptedStep(file: string, pos: nat, n: nat, parsed: Option<Rule>, rules: seq<Rule>, added: nat)
    requires pos < |file| && n == ChunkLen(file[pos..], LINE - 1)
    requires parsed == ParseRule(LineText(file[pos..][..n]))
    requires Unread(file, pos, rules, added)
    ensures 0 < n && pos + n <= |file|
    ensures parsed.None? ==> Unread(file, pos + n, rules, added)
    ensures parsed.Some? ==>
              added < |rules| && rules[added] == parsed.value && Unread(file, pos + n, rules, added + 1)
  {
    var chunks := Chunks(file[pos..]);
    assert file[pos..][n..] == file[pos + n..];
    assert chunks[0] == file[pos..][..n] && chunks[1..] == Chunks(file[pos + n..]);
    if parsed.Some? {
      assert rules[added..][0] == rules[added] && rules[added..][1..] == rules[added + 1..];
    }
  }

  /** fgets and the parser on the chunk at pos. */
  method NextRule(file: string, pos: nat, ghost rules: seq<Rule>, ghost added: nat)
    returns (n: nat, parsed: Option<Rule>)
    requires pos < |file| && Unread(file, pos, rules, added)
    ensures 0 < n && pos + n <= |file|
    ensures parsed.None? ==> Unread(file, pos + n, rules, added)
    ensures parsed.Some? ==>
              added < |rules| && rules[added] == parsed.value && Unread(file, pos + n, rules, added + 1)
  {
    n := ChunkLen(file[pos..], LINE - 1);
    var line := file[pos..][..n];
    parsed := ParseRule(LineText(line));
    AcceptedStep(file, pos, n, parsed, rules, added);
  }

  /** The table is what it was, followed by the first added of the accepted rules. */
  ghost predicate Extended(es: seq<Entry>, base: seq<Entry>, rules: seq<Rule>, added: nat) {
    && |es| == |base| + added && added <= |rules|
    && es[..|base|] == base
    && forall i | 0 <= i < added :: Written(es[|base| + i], rules[i])
  }

  lemma ExtendedOne(es: seq<Entry>, es': seq<Entry>, base: seq<Entry>, rules: seq<Rule>, added: nat)
    requires Extended(es, base, rules, added) && added < |rules|
    requires |es'| == |es| + 1 && es'[..|es|] == es && Written(es'[|es|], rules[added])
    ensures Extended(es', base, rules, added + 1)
  {
  }

  /** The first n rules have been evaluated: their actions are counted, and recorded while the log is open. */
  ghost predicate Acted(rules: seq<Rule>, n: nat, blob: Option<Payload>, triggers: nat,
                        before: seq<string>, alerts: seq<string>, open: bool)
    requires blob.Some? ==> blob.value.Valid()
  {
    && n <= |rules|
    && triggers == |Fired(rules[..n], blob)|
    && alerts == before + (if open then Messages(Fired(rules[..n], blob)) else [])
  }

  /** One turn of the evaluation loop. */
  method Act(r: Rule, blob: Option<Payload>, log: AlertLog, triggers: nat,
             ghost rules: seq<Rule>, ghost i: nat, ghost before: seq<string>)
    returns (newTriggers: nat)
    requires blob.Some? ==> blob.value.Valid()
    requires i < |rules| && rules[i] == r && Acted(rules, i, blob, triggers, before, log.alerts, log.open)
    modifies log`alerts
    ensures Acted(rules, i + 1, blob, newTriggers, before, log.alerts, log.open)
  {
    ghost var fired := Fired(rules[..i], blob);
    FiredSnoc(rules[..i], r, blob);
    assert rules[..i + 1] == rules[..i] + [r];
    assert fired + [] == fired;
    newTriggers := triggers;
    if Evaluate(r.condition, blob) {
      var ok := log.Perform(r.action);
      MessagesAppend(fired, r.action);
      newTriggers := triggers + 1;
    }
  }

  lemma MessagesAppend(actions: seq<string>, action: string)
    ensures Messages(actions + [action]) ==
              Messages(actions) + (if |Message(action)| < 512 then [Message(action)] else [])
  {
    assert (actions + [action])[..|actions|] == actions;
  }

  /** Entries that hold rules short enough for their fields read back as those rules. */
  lemma AllRead(es: seq<Entry>, rules: seq<Rule>)
    requires |es| >= |rules|
    requires forall i | 0 <= i < |rules| :: Written(es[i], rules[i])
    requires forall r | r in rules :: Fits(r.condition) && Fits(r.action) && |r.condition| <= 254 && |r.action| <= 126
    ensures ReadAll(es, |rules|) == rules
    ensures forall i | 0 <= i < |rules| :: '\0' in es[i].action
  {
    forall i | 0 <= i < |rules|
      ensures ReadEntry(es[i..]) == rules[i] && '\0' in es[i].action
    {
      assert rules[i] in rules;
      WrittenReads(es[i..], rules[i]);
    }
  }

  // ---------------------------------------------------------------- growth

  /** The loader's capacity when it writes entry number count. */
  function NextCap(count: nat, cap: nat): nat {
    if count + 1 <= cap then cap else if cap == 0 then 8 else cap * 2
  }

  /** An entry written, and how many entries the table had room for. */
  datatype Write = Write(index: nat, size: nat)

  /**
   The entry writes of the rest of one call that accepts n more lines, when grants more reallocations succeed.
   A call starts with capacity 0, however large the table is.
   */
  function Writes(count: nat, cap: nat, n: nat, grants: nat): (ws: seq<Write>)
    ensures |ws| <= n
    decreases n
  {
    if n == 0 || (count + 1 > cap && grants == 0) then []
    else
      var next := NextCap(count, cap);
      [Write(count, next)] + Writes(count + 1, next, n - 1, if count + 1 > cap then grants - 1 else grants)
  }

  predicate InBounds(writes: seq<Write>) {
    forall w | w in writes :: w.index < w.size
  }

  /** The capacity after this many reallocations. */
  function Capacity(grants: nat): nat {
    if grants == 0 then 0 else if grants == 1 then 8 else 2 * Capacity(grants - 1)
  }

  lemma {:induction false} CapacityIs(grants: nat)
    ensures Capacity(grants) == if grants == 0 then 0 else 4 * Pow2(grants)
  {
    if grants > 1 {
      CapacityIs(grants - 1);
    }
  }

  /** The writes of a call after its first reallocation: all in bounds, and as many as the reallocations allow. */
  lemma {:induction false} LaterWrites(count: nat, used: nat, n: nat, grants: nat)
    requires used >= 1 && count <= Capacity(used)
    ensures InBounds(Writes(count, Capacity(used), n, grants))
    ensures count <= Capacity(used + grants)
    ensures |Writes(count, Capacity(used), n, grants)| ==
              if count + n <= Capacity(used + grants) then n else Capacity(used + grants) - count
    decreases n + grants
  {
    CapacityGrows(used, grants);
    if n > 0 && count < Capacity(used) {
      LaterWrites(count + 1, used, n - 1, grants);
    } else if n > 0 && grants > 0 {
      LaterWrites(count + 1, used + 1, n - 1, grants - 1);
    }
  }

  lemma {:induction false} CapacityGrows(used: nat, grants: nat)
    requires used >= 1
    ensures 8 <= Capacity(used) <= Capacity(used + grants)
  {
    if grants > 0 {
      CapacityGrows(used, grants - 1);
    } else if used > 1 {
      CapacityGrows(used - 1, 0);
    }
  }

  /** A whole call writes in bounds exactly when it writes nothing or fewer than 8 rules are loaded before it. */
  lemma WritesInBounds(count: nat, n: nat, grants: nat)
    ensures InBounds(Writes(count, 0, n, grants)) <==> n == 0 || grants == 0 || count < 8
  {
    if n > 0 && grants > 0 {
      assert Writes(count, 0, n, grants)[0] == Write(count, 8);
      if count < 8 {
        LaterWrites(count + 1, 1, n - 1, grants - 1);
      }
    }
  }

  /** How many of n accepted lines one call stores behind count rules. */
  function Stored(count: nat, n: nat, grants: nat): nat {
    if count + n <= Capacity(grants) then n
    else if Capacity(grants) <= count then 0
    else Capacity(grants) - count
  }

  lemma WriteCount(count: nat, n: nat, grants: nat)
    requires InBounds(Writes(count, 0, n, grants))
    ensures |Writes(count, 0, n, grants)| == Stored(count, n, grants)
    ensures Stored(count, n, grants) == n <==> n == 0 || count + n <= Capacity(grants)
  {
    WritesInBounds(count, n, grants);
    if n > 0 && grants > 0 {
      LaterWrites(count + 1, 1, n - 1, grants - 1);
    }
  }

  /** A call is midway: it has made the first added of its writes. */
  ghost predicate Midway(writes: seq<Write>, added: nat, count: nat, cap: nat, n: nat, left: nat) {
    added <= n && added <= |writes| && writes[added..] == Writes(count, cap, n - added, left)
  }

  lemma NextWrite(writes: seq<Write>, added: nat, count: nat, cap: nat, n: nat, left: nat)
    requires Midway(writes, added, count, cap, n, left) && added < n && InBounds(writes)
    ensures if left == 0 && count + 1 > cap then added == |writes|
            else
              && count < NextCap(count, cap)
              && Midway(writes, added + 1, count + 1, NextCap(count, cap), n,
                        if count + 1 > cap then left - 1 else left)
  {
    if left > 0 || count + 1 <= cap {
      assert writes[added] == writes[added..][0] == Write(count, NextCap(count, cap));
      assert writes[added + 1..] == writes[added..][1..];
    }
  }

  // ---------------------------------------------------------------- the table

  class RuleTable {
    /** The allocation behind g_rules, None while it is NULL. */
    var memory: Option<seq<Entry>>
    var count: nat

    ghost predicate Valid()
      reads this
    {
      if memory.None? then count == 0 else count <= |memory.value|
    }

    ghost function Entries(): (es: seq<Entry>)
      requires Valid()
      reads this
      ensures |es| == count
    {
      if memory.None? then [] else memory.value[..count]
    }

    ghost function Rules(): (rs: seq<Rule>)
      requires Valid()
      reads this
      ensures |rs| == count
    {
      if memory.None? then [] else ReadAll(memory.value, count)
    }

    /** Reading any field of any rule as a C string ends within the allocation. */
    ghost predicate Terminated()
      requires Valid()
      reads this
    {
      count > 0 ==> '\0' in memory.value[count - 1].action + Text(memory.value[count..])
    }

    constructor ()
      ensures Valid() && count == 0 && memory.None?
    {
      memory, count := None, 0;
    }

    /** realloc to capacity entries: keeps what fits, and the rest of the new memory is arbitrary. */
    method Grow(capacity: nat, granted: bool) returns (ok: bool)
      requires Valid() && (granted ==> count < capacity)
      modifies this`memory
      ensures Valid() && Entries() == old(Entries()) && ok == granted
      ensures if ok then memory.Some? && |memory.value| == capacity else memory == old(memory)
    {
      if granted {
        var block: seq<Entry> :| |block| == capacity by { assert |BlankEntries(capacity)| == capacity; }
        memory := Some((if memory.None? then [] else memory.value[..count]) + block[count..]);
      }
      return granted;
    }

    /** Writes rule r behind the last entry. */
    method Append(r: Rule)
      requires Valid() && memory.Some? && count < |memory.value|
      modifies this
      ensures Valid() && memory.Some? && |memory.value| == |old(memory).value|
      ensures count == old(count) + 1 && Entries()[..old(count)] == old(Entries())
      ensures Written(Entries()[old(count)], r)
    {
      var e := memory.value[count];
      var e' := Entry(Strncpy(e.condition, r.condition, 255), Strncpy(e.action, r.action, 127));
      memory := Some(memory.value[count := e']);
      count := count + 1;
    }

    /** Adds a rule, growing the table when cap, the loader's own idea of its capacity, is used up. */
    method Add(r: Rule, cap: nat, granted: bool, ghost base: seq<Entry>, ghost rules: seq<Rule>, ghost added: nat)
      returns (ok: bool)
      requires Valid() && Extended(Entries(), base, rules, added) && added < |rules| && rules[added] == r
      requires cap != 0 ==> memory.Some? && |memory.value| == cap
      requires granted || count + 1 <= cap ==> count < NextCap(count, cap)
      modifies this
      ensures Valid() && (ok <==> granted || old(count) + 1 <= cap)
      ensures ok ==> memory.Some? && |memory.value| == NextCap(old(count), cap) && count == old(count) + 1
      ensures ok ==> Extended(Entries(), base, rules, added + 1)
      ensures !ok ==> memory == old(memory) && count == old(count)
    {
      if count + 1 > cap {
        ok := Grow(NextCap(count, cap), granted);
        if !ok {
          return;
        }
      }
      ghost var es := Entries();
      Append(r);
      ExtendedOne(es, Entries(), base, rules, added);
      return true;
    }

    /** The table holds base and the first added rules, and the call is as far with its writes. */
    ghost predicate Loading(base: seq<Entry>, rules: seq<Rule>, writes: seq<Write>, added: nat, cap: nat, left: nat)
      reads this
    {
      && Valid() && InBounds(writes)
      && Extended(Entries(), base, rules, added)
      && Midway(writes, added, count, cap, |rules|, left)
      && (cap != 0 ==> memory.Some? && |memory.value| == cap)
    }

    /** One accepted line: the rule is added with the next entry write of the call, or the call fails. */
    method Accept(r: Rule, cap: nat, left: nat, ghost base: seq<Entry>, ghost rules: seq<Rule>,
                  ghost writes: seq<Write>, ghost added: nat)
      returns (ok: bool, newCap: nat, newLeft: nat)
      requires Loading(base, rules, writes, added, cap, left) && added < |rules| && rules[added] == r
      modifies this
      ensures ok ==> Loading(base, rules, writes, added + 1, newCap, newLeft)
      ensures !ok ==> Loading(base, rules, writes, added, newCap, newLeft) && added == |writes|
    {
      NextWrite(writes, added, count, cap, |rules|, left);
      var next := NextCap(count, cap);
      var grows := count + 1 > cap;
      ok := Add(r, cap, left > 0, base, rules, added);
      newCap := if ok then next else cap;
      newLeft := if ok && grows then left - 1 else left;
    }

    /** One turn of the loop: reads the line at pos and adds its rule, if it has one. */
    method LoadLine(text: string, pos: nat, cap: nat, left: nat, ghost base: seq<Entry>, ghost rules: seq<Rule>,
                    ghost writes: seq<Write>, ghost added: nat)
      returns (ok: bool, newPos: nat, newCap: nat, newLeft: nat, ghost newAdded: nat)
      requires pos < |text| && Unread(text, pos, rules, added) && Loading(base, rules, writes, added, cap, left)
      modifies this
      ensures pos < newPos <= |text| && Loading(base, rules, writes, newAdded, newCap, newLeft)
      ensures if ok then Unread(text, newPos, rules, newAdded) else newAdded == |writes| < |rules|
    {
      var n, parsed := NextRule(text, pos, rules, added);
      if parsed.None? {
        return true, pos + n, cap, left, added;
      }
      newPos := pos + n;
      ok, newCap, newLeft := Accept(parsed.value, cap, left, base, rules, writes, added);
      if !ok {
        return false, newPos, newCap, newLeft, added;
      }
      newAdded := added + 1;
    }

    /** The loop over the lines of an open file makes as many writes as the reallocations allow. */
    method LoadLines(text: string, grants: nat, ghost writes: seq<Write>) returns (ok: bool)
      requires Valid() && writes == Writes(count, 0, |Accepted(text)|, grants) && InBounds(writes)
      modifies this
      ensures Valid() && Extended(Entries(), old(Entries()), Accepted(text), |writes|)
      ensures ok <==> |writes| == |Accepted(text)|
    {
      var pos, cap, left := 0, 0, grants;
      ghost var rules, base, added := Accepted(text), Entries(), 0;
      UnreadStart(text);
      ok := true;
      while pos < |text|
        invariant 0 <= pos <= |text|
        invariant Unread(text, pos, rules, added)
        invariant Loading(base, rules, writes, added, cap, left)
        decreases |text| - pos
      {
        ok, pos, cap, left, added := LoadLine(text, pos, cap, left, base, rules, writes, added);
        if !ok {
          return;
        }
      }
      UnreadEnd(text, rules, added);
      ok := true;
    }

    /**
     rules_load_from_file, when the first grants reallocations succeed. It demands that no entry is written out
     of bounds; see WritesInBounds. The result is -1 when the file cannot be opened or when the table cannot
     grow; the rules added before that stay.
     */
    method Load(file: Option<string>, grants: nat) returns (rc: int)
      requires Valid()
      requires file.Some? ==> InBounds(Writes(count, 0, |Accepted(file.value)|, grants))
      modifies this
      ensures Valid() && rc in {0, -1}
      ensures file.None? ==> rc == -1 && memory == old(memory) && count == old(count)
      ensures file.Some? ==>
                var rules := Accepted(file.value);
                && (rc == 0 <==> rules == [] || old(count) + |rules| <= Capacity(grants))
                && Extended(Entries(), old(Entries()), rules, Stored(old(count), |rules|, grants))
    {
      if file.None? {
        return -1;
      }
      WriteCount(count, |Accepted(file.value)|, grants);
      var ok := LoadLines(file.value, grants, Writes(count, 0, |Accepted(file.value)|, grants));
      return if ok then 0 else -1;
    }

    /** rules_evaluate_and_act. */
    method EvaluateAndAct(blob: Option<Payload>, log: AlertLog) returns (triggers: nat)
      requires Valid() && Terminated() && (blob.Some? ==> blob.value.Valid())
      modifies log`alerts
      ensures triggers == |Fired(Rules(), blob)|
      ensures log.alerts == old(log.alerts) + (if log.open then Messages(Fired(Rules(), blob)) else [])
    {
      if memory.None? {
        return 0;
      }
      triggers := 0;
      ghost var rules := Rules();
      assert rules[..0] == [];
      for i := 0 to count
        invariant Acted(rules, i, blob, triggers, old(log.alerts), log.alerts, log.open)
      {
        triggers := Act(ReadEntry(memory.value[i..]), blob, log, triggers, rules, i, old(log.alerts));
      }
      assert rules[..count] == rules;
    }
  }

  /** The rules that a first load leaves in the table. */
  function Loaded(file: Option<string>, grants: nat): seq<Rule> {
    if file.None? then []
    else
      var rules := Accepted(file.value);
      if |rules| <= Capacity(grants) then rules else rules[..Capacity(grants)]
  }

  /** The accepted fields leave room for a NUL in theirs. */
  predicate Short(rules: seq<Rule>) {
    forall r | r in rules :: |r.condition| <= 254 && |r.action| <= 126
  }

  /** What LoadThenEvaluate finds in the table it has loaded. */
  lemma LoadedRules(table: RuleTable, file: string, grants: nat)
    requires table.Valid() && Short(Accepted(file))
    requires Extended(table.Entries(), [], Accepted(file), Stored(0, |Accepted(file)|, grants))
    ensures table.Terminated() && table.Rules() == Loaded(Some(file), grants)
  {
    var loaded := Loaded(Some(file), grants);
    assert |loaded| == table.count;
    if table.memory.Some? {
      ParsedFit(Chunks(file));
      forall i | 0 <= i < |loaded|
        ensures Written(table.memory.value[i], loaded[i])
      {
        assert table.Entries()[0 + i] == table.memory.value[i];
      }
      AllRead(table.memory.value, loaded);
    }
  }

  lemma {:induction false} FiredFrom(rules: seq<Rule>, blob: Option<Payload>)
    requires Short(rules) && (blob.Some? ==> blob.value.Valid())
    ensures forall a | a in Fired(rules, blob) :: |a| <= 126
  {
    if rules != [] {
      FiredFrom(rules[1..], blob);
    }
  }

  /**
   Loading any file into an empty table and evaluating an event records exactly the actions of the matching
   accepted lines, in file order, through every growth of the table. When a growth is refused the lines before
   it still act.
   */
  method LoadThenEvaluate(file: Option<string>, grants: nat, blob: Option<Payload>, log: AlertLog)
    returns (rc: int, triggers: nat)
    requires file.Some? ==> Short(Accepted(file.value))
    requires blob.Some? ==> blob.value.Valid()
    modifies log`alerts
    ensures rc == if file.Some? && |Accepted(file.value)| <= Capacity(grants) then 0 else -1
    ensures triggers == |Fired(Loaded(file, grants), blob)|
    ensures log.alerts == old(log.alerts) + (if log.open then Messages(Fired(Loaded(file, grants), blob)) else [])
  {
    var table := new RuleTable();
    if file.Some? {
      WritesInBounds(0, |Accepted(file.value)|, grants);
    }
    rc := table.Load(file, grants);
    if file.Some? {
      LoadedRules(table, file.value, grants);
    }
    triggers := table.EvaluateAndAct(blob, log);
  }

  /** In particular, rules printed to a file, with enough memory, act as they are. */
  method LoadPrintedThenEvaluate(rules: seq<Rule>, grants: nat, blob: Option<Payload>, log: AlertLog)
    returns (rc: int, triggers: nat)
    requires Short(rules) && (forall r | r in rules :: PrintFits(r) && Separable(r)) && |rules| <= Capacity(grants)
    requires blob.Some? ==> blob.value.Valid()
    modifies log`alerts
    ensures rc == 0 && triggers == |Fired(rules, blob)|
    ensures log.alerts == old(log.alerts) + (if log.open then Messages(Fired(rules, blob)) else [])
  {
    FileRoundTrip(rules);
    rc, triggers := LoadThenEvaluate(Some(PrintFile(rules)), grants, blob, log);
  }
}
