/** The `{:?}` (Debug) rendering of the values a node writes into its log
    entries: a `u64` prints as its decimal digits, an `Id` as `Id(<digits>)`;
    and the text of each kind of log entry. */
module Format {
  import opened Types

  predicate IsDigit(c: char) {
    '0' <= c <= '9'
  }

  function DigitChar(d: nat): (c: char)
    requires d < 10
    ensures IsDigit(c) && c as int - '0' as int == d
  {
    ('0' as int + d) as char
  }

  /** Decimal digits of `n`, most significant first, without leading zeros. */
  function Decimal(n: nat): (s: string)
    ensures 1 <= |s|
    ensures forall i :: 0 <= i < |s| ==> IsDigit(s[i])
    ensures |s| > 1 ==> s[0] != '0'
  {
    if n < 10 then [DigitChar(n)] else Decimal(n / 10) + [DigitChar(n % 10)]
  }

  /** The number a string of decimal digits denotes. */
  function DigitsValue(s: string): nat
    requires forall i :: 0 <= i < |s| ==> IsDigit(s[i])
  {
    if s == [] then 0
    else
      var last := s[|s| - 1];
      assert IsDigit(last);
      DigitsValue(s[..|s| - 1]) * 10 + (last as int - '0' as int)
  }

  /** The digits printed for `n` read back as `n`: distinct numbers print
      differently. */
  lemma {:induction false} DecimalRoundTrip(n: nat)
    ensures DigitsValue(Decimal(n)) == n
  {
    if n >= 10 {
      var s := Decimal(n);
      assert s[..|s| - 1] == Decimal(n / 10);
      DecimalRoundTrip(n / 10);
    }
  }

  /** `{:?}` of a `u64`. (`{:?}` of an `Id` is `Id(` + the digits + `)`,
      written out in `Render`.) */
  function DebugU64(n: u64): string {
    Decimal(n as nat)
  }

  /** The text of a log entry, as the node formats it. Each text is built
      right to left so that it reads as a fixed piece followed by the rest. */
  function Render(e: LogEntry): string {
    match e
    case Text(text) => text
    case VoteCast(senderTerm, sender, term) =>
      "[logterm: " + (DebugU64(senderTerm) + ("] cast vote for Id(" + (DebugU64(sender.value) + (") at term " + DebugU64(term)))))
    case VoteRejected(senderTerm, sender, term) =>
      "[logterm: " + (DebugU64(senderTerm) + ("] rejected vote for Id(" + (DebugU64(sender.value) + (") at term " + DebugU64(term)))))
    case LowerTerm(sender, term, senderTerm) =>
      "ignored a message with lower term from Id(" + (DebugU64(sender.value) + (") with term " + (DebugU64(term)
      + (" and sender term " + DebugU64(senderTerm)))))
    case NewLeader(leader, term) =>
      "new leader Id(" + (DebugU64(leader.value) + (") at term " + DebugU64(term)))
  }

  lemma PrefixCancel(p: string, x: string, y: string)
    requires p + x == p + y
    ensures x == y
  {
    assert x == (p + x)[|p|..];
    assert y == (p + y)[|p|..];
  }

  /** Equal printed numbers are equal numbers. */
  lemma DebugU64Injective(a: u64, b: u64)
    requires DebugU64(a) == DebugU64(b)
    ensures a == b
  {
    DecimalRoundTrip(a as nat);
    DecimalRoundTrip(b as nat);
  }

  /** Where a number's digits are followed by a non-digit, the text reads
      back as one number and one rest. */
  lemma DebugU64ThenText(a: u64, s: string, b: u64, t: string)
    requires s != [] && !IsDigit(s[0]) && t != [] && !IsDigit(t[0])
    requires DebugU64(a) + s == DebugU64(b) + t
    ensures a == b && s == t
  {
    var da, db := DebugU64(a), DebugU64(b);
    var x := da + s;
    // the first non-digit of the text sits right after each number's digits
    assert forall i :: 0 <= i < |da| ==> IsDigit(x[i]);
    assert forall i :: 0 <= i < |db| ==> IsDigit(x[i]);
    assert !IsDigit(x[|da|]) && !IsDigit(x[|db|]);
    assert |da| == |db|;
    assert da == x[..|da|] && db == x[..|db|];
    DebugU64Injective(a, b);
    assert s == x[|da|..] && t == x[|db|..];
  }

  /** Vote decisions: equal texts mean equal entries. */
  lemma VoteCastTextInjective(a: u64, b: Id, c: u64, a': u64, b': Id, c': u64)
    requires Render(VoteCast(a, b, c)) == Render(VoteCast(a', b', c'))
    ensures a == a' && b == b' && c == c'
  {
    var r2 := ") at term " + DebugU64(c);
    var r2' := ") at term " + DebugU64(c');
    var r1 := "] cast vote for Id(" + (DebugU64(b.value) + r2);
    var r1' := "] cast vote for Id(" + (DebugU64(b'.value) + r2');
    PrefixCancel("[logterm: ", DebugU64(a) + r1, DebugU64(a') + r1');
    DebugU64ThenText(a, r1, a', r1');
    PrefixCancel("] cast vote for Id(", DebugU64(b.value) + r2, DebugU64(b'.value) + r2');
    DebugU64ThenText(b.value, r2, b'.value, r2');
    PrefixCancel(") at term ", DebugU64(c), DebugU64(c'));
    DebugU64Injective(c, c');
  }

  lemma VoteRejectedTextInjective(a: u64, b: Id, c: u64, a': u64, b': Id, c': u64)
    requires Render(VoteRejected(a, b, c)) == Render(VoteRejected(a', b', c'))
    ensures a == a' && b == b' && c == c'
  {
    var r2 := ") at term " + DebugU64(c);
    var r2' := ") at term " + DebugU64(c');
    var r1 := "] rejected vote for Id(" + (DebugU64(b.value) + r2);
    var r1' := "] rejected vote for Id(" + (DebugU64(b'.value) + r2');
    PrefixCancel("[logterm: ", DebugU64(a) + r1, DebugU64(a') + r1');
    DebugU64ThenText(a, r1, a', r1');
    PrefixCancel("] rejected vote for Id(", DebugU64(b.value) + r2, DebugU64(b'.value) + r2');
    DebugU64ThenText(b.value, r2, b'.value, r2');
    PrefixCancel(") at term ", DebugU64(c), DebugU64(c'));
    DebugU64Injective(c, c');
  }

  /** A cast vote never reads as a rejected one. */
  lemma CastNeverReadsRejected(a: u64, b: Id, c: u64, a': u64, b': Id, c': u64)
    ensures Render(VoteCast(a, b, c)) != Render(VoteRejected(a', b', c'))
  {
    var r1 := "] cast vote for Id(" + (DebugU64(b.value) + (") at term " + DebugU64(c)));
    var r1' := "] rejected vote for Id(" + (DebugU64(b'.value) + (") at term " + DebugU64(c')));
    assert r1[2] == 'c' && r1'[2] == 'r';
    if Render(VoteCast(a, b, c)) == Render(VoteRejected(a', b', c')) {
      PrefixCancel("[logterm: ", DebugU64(a) + r1, DebugU64(a') + r1');
      DebugU64ThenText(a, r1, a', r1');
    }
  }

  lemma LowerTermTextInjective(s: Id, t: u64, st: u64, s': Id, t': u64, st': u64)
    requires Render(LowerTerm(s, t, st)) == Render(LowerTerm(s', t', st'))
    ensures s == s' && t == t' && st == st'
  {
    var r2 := " and sender term " + DebugU64(st);
    var r2' := " and sender term " + DebugU64(st');
    var r1 := ") with term " + (DebugU64(t) + r2);
    var r1' := ") with term " + (DebugU64(t') + r2');
    PrefixCancel("ignored a message with lower term from Id(", DebugU64(s.value) + r1, DebugU64(s'.value) + r1');
    DebugU64ThenText(s.value, r1, s'.value, r1');
    PrefixCancel(") with term ", DebugU64(t) + r2, DebugU64(t') + r2');
    DebugU64ThenText(t, r2, t', r2');
    PrefixCancel(" and sender term ", DebugU64(st), DebugU64(st'));
    DebugU64Injective(st, st');
  }

  lemma NewLeaderTextInjective(l: Id, t: u64, l': Id, t': u64)
    requires Render(NewLeader(l, t)) == Render(NewLeader(l', t'))
    ensures l == l' && t == t'
  {
    var r1 := ") at term " + DebugU64(t);
    var r1' := ") at term " + DebugU64(t');
    PrefixCancel("new leader Id(", DebugU64(l.value) + r1, DebugU64(l'.value) + r1');
    DebugU64ThenText(l.value, r1, l'.value, r1');
    PrefixCancel(") at term ", DebugU64(t), DebugU64(t'));
    DebugU64Injective(t, t');
  }

  /** The first character tells the kinds apart: '[' for a vote decision,
      'i' for an ignored request, 'n' for a new leader. */
  function Lead(e: LogEntry): char
    requires !e.Text?
  {
    match e
    case VoteCast(_, _, _) => '['
    case VoteRejected(_, _, _) => '['
    case LowerTerm(_, _, _) => 'i'
    case NewLeader(_, _) => 'n'
  }

  lemma RenderLead(e: LogEntry)
    requires !e.Text?
    ensures |Render(e)| > 0 && Render(e)[0] == Lead(e)
  {
  }

  /** Distinct entries that a node writes about its own decisions have
      distinct texts: comparing them as values is comparing their texts. */
  lemma RenderInjective(e: LogEntry, e': LogEntry)
    requires !e.Text? && !e'.Text?
    requires Render(e) == Render(e')
    ensures e == e'
  {
    RenderLead(e);
    RenderLead(e');
    match (e, e') {
      case (VoteCast(a, b, c), VoteCast(a', b', c')) => VoteCastTextInjective(a, b, c, a', b', c');
      case (VoteRejected(a, b, c), VoteRejected(a', b', c')) => VoteRejectedTextInjective(a, b, c, a', b', c');
      case (VoteCast(a, b, c), VoteRejected(a', b', c')) => CastNeverReadsRejected(a, b, c, a', b', c');
      case (VoteRejected(a', b', c'), VoteCast(a, b, c)) => CastNeverReadsRejected(a, b, c, a', b', c');
      case (LowerTerm(s, t, st), LowerTerm(s', t', st')) => LowerTermTextInjective(s, t, st, s', t', st');
      case (NewLeader(l, t), NewLeader(l', t')) => NewLeaderTextInjective(l, t, l', t');
      case (_, _) =>
    }
  }
}
