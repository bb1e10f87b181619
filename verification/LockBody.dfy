/**
 * The text of a lock body and the two decisions taken from it: staleness and
 * ownership (src/adapters/persistence-lock.ts).
 */
module LockBody {
  import opened Results
  import opened PaddedKeys
  import opened Strings

  /** What a read of the lockfile returns. */
  datatype BodyRead = Missing | Unreadable | Body(text: string)

  function BuildLockContent(pid: nat, token: string): string {
    "pid=" + Decimal(pid) + "\n" + ("token=" + token + "\n")
  }

  /** The longest run of digits at the front. */
  function DigitRun(text: string): string {
    if text != "" && IsDigit(text[0]) then [text[0]] + DigitRun(text[1..]) else ""
  }

  /** raw.match(/^pid=(\d+)/m): the digits of the first match at or after position i. */
  function FindPid(text: string, i: nat): Option<string>
    requires i <= |text|
    decreases |text| - i
  {
    if i == |text| then None
    else if (i == 0 || IsLineTerminator(text[i - 1])) && StartsWith(text[i..], "pid=") && DigitRun(text[i + 4..]) != ""
    then Some(DigitRun(text[i + 4..]))
    else FindPid(text, i + 1)
  }

  predicate IsBodyStale(read: BodyRead, alive: nat -> bool) {
    match read
    case Missing => true
    case Unreadable => false
    case Body(text) =>
      var digits := FindPid(text, 0);
      digits.Some? && !alive(DecimalValue(digits.value))
  }

  /** releaseLock deletes the file exactly when some line is its own token line. */
  predicate ReleaseDeletes(text: string, token: string) {
    ("token=" + token) in Split(text, '\n')
  }

  lemma {:induction false} DigitRunStops(digits: string, rest: string)
    requires forall i :: 0 <= i < |digits| ==> IsDigit(digits[i])
    requires rest == "" || !IsDigit(rest[0])
    ensures DigitRun(digits + rest) == digits
  {
    if digits == "" {
      assert digits + rest == rest;
    } else {
      assert (digits + rest)[1..] == digits[1..] + rest;
      DigitRunStops(digits[1..], rest);
    }
  }

  lemma {:induction false} NoPidInShortText(text: string, i: nat)
    requires i <= |text| <= 4
    ensures FindPid(text, i).None?
    decreases |text| - i
  {
    if i < |text| {
      NoPidInShortText(text, i + 1);
    }
  }

  /** A line starts at i with `pid=` and a digit. */
  predicate PidLineAt(text: string, i: nat) {
    && i + 4 < |text| && '0' <= text[i + 4] <= '9'
    && text[i] == 'p' && text[i + 1] == 'i' && text[i + 2] == 'd' && text[i + 3] == '='
    && (i == 0 || text[i - 1] in ['\n', '\r', '\U{2028}', '\U{2029}'])
  }

  /** All digits from i on. */
  predicate IsDigitRun(text: string, i: nat, digits: string) {
    && i + |digits| <= |text| && text[i..i + |digits|] == digits
    && (forall k :: 0 <= k < |digits| ==> '0' <= digits[k] <= '9')
    && (i + |digits| < |text| ==> !('0' <= text[i + |digits|] <= '9'))
  }

  lemma {:induction false} DigitRunMeans(text: string)
    ensures IsDigitRun(text, 0, DigitRun(text))
    ensures DigitRun(text) != "" <==> text != "" && '0' <= text[0] <= '9'
  {
    if text != "" && IsDigit(text[0]) {
      DigitRunMeans(text[1..]);
      assert text == [text[0]] + text[1..];
    }
  }

  lemma LineIff(text: string, i: nat)
    requires i < |text|
    ensures (i == 0 || IsLineTerminator(text[i - 1])) && StartsWith(text[i..], "pid=") && DigitRun(text[i + 4..]) != ""
      <==> PidLineAt(text, i)
  {
    var rest := text[i..];
    if |rest| >= 4 {
      assert rest[..4] == [rest[0], rest[1], rest[2], rest[3]];
      DigitRunMeans(text[i + 4..]);
    }
  }

  lemma FindPidStep(text: string, i: nat)
    requires i < |text|
    ensures PidLineAt(text, i) ==>
      FindPid(text, i).Some? && IsDigitRun(text, i + 4, FindPid(text, i).value)
    ensures !PidLineAt(text, i) ==> FindPid(text, i) == FindPid(text, i + 1)
  {
    LineIff(text, i);
    if PidLineAt(text, i) {
      var rest := text[i + 4..];
      DigitRunMeans(rest);
      assert rest[..|DigitRun(rest)|] == text[i + 4..i + 4 + |DigitRun(rest)|];
    }
    hide PidLineAt, StartsWith, DigitRun;
  }

  /** The pid of any body is the whole digit run of its first line that starts with `pid=` and a digit. */
  lemma {:induction false} FindPidMeans(text: string, i: nat)
    requires i <= |text|
    ensures FindPid(text, i).None? <==> forall k :: i <= k < |text| ==> !PidLineAt(text, k)
    ensures FindPid(text, i).Some? ==>
      exists k :: i <= k < |text| && PidLineAt(text, k) && IsDigitRun(text, k + 4, FindPid(text, i).value)
                  && forall j :: i <= j < k ==> !PidLineAt(text, j)
    decreases |text| - i
  {
    if i < |text| {
      hide FindPid, PidLineAt, IsDigitRun;
      FindPidStep(text, i);
      if !PidLineAt(text, i) {
        FindPidMeans(text, i + 1);
      }
    }
  }

  /** What counts as stale: a lockfile that is gone, and a body whose first pid line names a dead process; nothing that cannot be read. */
  lemma StaleAnswers(text: string, alive: nat -> bool)
    ensures IsBodyStale(Missing, alive) && !IsBodyStale(Unreadable, alive)
    ensures (forall k :: 0 <= k < |text| ==> !PidLineAt(text, k)) ==> !IsBodyStale(Body(text), alive)
    ensures forall k: nat, digits: string {:trigger IsDigitRun(text, k + 4, digits)} ::
      k < |text| && PidLineAt(text, k) && (forall j :: 0 <= j < k ==> !PidLineAt(text, j)) && IsDigitRun(text, k + 4, digits)
      ==> (IsBodyStale(Body(text), alive) <==> !alive(DecimalValue(digits)))
  {
    FindPidMeans(text, 0);
    hide FindPid, DecimalValue, PidLineAt, IsDigitRun;
    forall k: nat, digits: string {:trigger IsDigitRun(text, k + 4, digits)}
      | k < |text| && PidLineAt(text, k) && (forall j :: 0 <= j < k ==> !PidLineAt(text, j)) && IsDigitRun(text, k + 4, digits)
      ensures FindPid(text, 0) == Some(digits)
    {
      OneRun(text, k + 4, digits, FindPid(text, 0).value);
    }
  }

  lemma RunDigit(text: string, i: nat, digits: string, k: nat)
    requires IsDigitRun(text, i, digits) && k < |digits|
    ensures '0' <= text[i + k] <= '9'
  {
    assert text[i..i + |digits|][k] == text[i + k];
  }

  lemma OneRun(text: string, i: nat, a: string, b: string)
    requires IsDigitRun(text, i, a) && IsDigitRun(text, i, b)
    ensures a == b
  {
    NoLonger(text, i, a, b);
    NoLonger(text, i, b, a);
  }

  lemma NoLonger(text: string, i: nat, a: string, b: string)
    requires IsDigitRun(text, i, a) && IsDigitRun(text, i, b)
    ensures |b| <= |a|
  {
    if |a| < |b| { RunDigit(text, i, b, |a|); }
  }

  function Min(a: nat, b: nat): nat {
    if a < b then a else b
  }

  /** The pid a body cut off after k characters shows: none up to the equals sign, then the digits that made it. */
  function CutPid(pid: nat, k: nat): Option<nat> {
    if k <= 4 then None else Some(DecimalValue(Decimal(pid)[..Min(k - 4, |Decimal(pid)|)]))
  }

  /**
   * How a cut body is judged, for every pid and token: as live while it shows no pid,
   * and by the pid it shows from then on, which is the writer's own once all digits
   * are there.
   */
  lemma CutBodyStaleIff(pid: nat, token: string, k: nat, alive: nat -> bool)
    requires k <= |BuildLockContent(pid, token)|
    ensures IsBodyStale(Body(BuildLockContent(pid, token)[..k]), alive) <==>
      CutPid(pid, k).Some? && !alive(CutPid(pid, k).value)
  {
    var digits, rest := Decimal(pid), "\n" + ("token=" + token + "\n");
    DecimalIsRead(pid);
    assert BuildLockContent(pid, token) == "pid=" + (digits + rest);
    hide Decimal, DecimalValue, BuildLockContent;
    CutPidIsFound(digits, rest, k);
  }

  lemma AllDigitsShow(pid: nat, k: nat)
    requires k >= 4 + |Decimal(pid)|
    ensures CutPid(pid, k) == Some(pid)
  {
    DecimalIsRead(pid);
    assert Decimal(pid)[..|Decimal(pid)|] == Decimal(pid);
  }

  lemma PidAtStart(text: string, digits: string)
    requires |text| > 4 && StartsWith(text, "pid=") && DigitRun(text[4..]) == digits != ""
    ensures FindPid(text, 0) == Some(digits)
  {
    assert text[0..] == text;
  }

  /** The pid found in a cut body is what the cut left of the digits. */
  lemma CutPidIsFound(digits: string, rest: string, k: nat)
    requires digits != "" && (forall i :: 0 <= i < |digits| ==> IsDigit(digits[i])) && rest != "" && !IsDigit(rest[0])
    requires k <= |"pid=" + (digits + rest)|
    ensures FindPid(("pid=" + (digits + rest))[..k], 0) ==
      if k <= 4 then None else Some(digits[..Min(k - 4, |digits|)])
  {
    var whole := "pid=" + (digits + rest);
    var cut := whole[..k];
    if k <= 4 {
      NoPidInShortText(cut, 0);
    } else {
      var m := Min(k - 4, |digits|);
      hide FindPid, DigitRun, Min, IsDigit;
      assert whole[4..] == digits + rest;
      assert cut[4..] == (digits + rest)[..k - 4] == digits[..m] + cut[4 + m..];
      assert cut[4 + m..] == "" || cut[4 + m] == rest[0];
      DigitRunStops(digits[..m], cut[4 + m..]);
      assert cut[0..] == cut && cut[..4] == "pid=";
      PidAtStart(cut, digits[..m]);
    }
  }

  /** A torn body can name another process: cut inside pid 12, it shows pid 1. */
  lemma CutTwelve()
    ensures CutPid(12, 5) == Some(1)
  {
    assert Decimal(12) == ['1'] + ['2'] by {
      assert Decimal(1) == ['1'] && Digit(2) == '2';
    }
    assert Decimal(12)[..1] == ['1'];
    DecimalIsRead(1);
  }

  /** And so it is judged by pid 1, although its writer lives. */
  lemma CutPidJudgedByAnother(token: string)
    ensures var alive := (p: nat) => p == 12;
      IsBodyStale(Body(BuildLockContent(12, token)[..5]), alive)
      && !IsBodyStale(Body(BuildLockContent(12, token)), alive)
  {
    var alive := (p: nat) => p == 12;
    var content := BuildLockContent(12, token);
    assert content[..|content|] == content;
    CutTwelve();
    AllDigitsShow(12, |content|);
    hide CutPid;
    CutBodyStaleIff(12, token, 5, alive);
    CutBodyStaleIff(12, token, |content|, alive);
  }

  /** Release is token-protected: on a complete body it deletes exactly its own. */
  lemma ReleaseDeletesIffOwn(pid: nat, written: string, token: string)
    requires '\n' !in written && '\n' !in token
    ensures ReleaseDeletes(BuildLockContent(pid, written), token) <==> written == token
  {
    var first, second := "pid=" + Decimal(pid), "token=" + written;
    DecimalIsRead(pid);
    assert '\n' !in first;
    assert '\n' !in second;
    assert BuildLockContent(pid, written) == first + ['\n'] + (second + ['\n'] + "");
    SplitAt(first, second + ['\n'] + "", '\n');
    SplitAt(second, "", '\n');
    SplitParts(first, '\n');
    SplitParts(second, '\n');
    assert Split(BuildLockContent(pid, written), '\n') == [first, second, ""];
    assert ("token=" + token)[0] == 't' && first[0] == 'p';
    assert ("token=" + token)[6..] == token && second[6..] == written;
  }
}
