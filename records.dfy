/**
 The record validator of the main loop: one input line `sender,port,receiver` is accepted or
 silently dropped. A line is the characters of the `tokens` buffer before its terminating NUL.
 */
module Records {
  import opened Wrappers

  /** An accepted record: the sender MAC, the port atoi read, the receiver MAC. */
  datatype Record = Record(sender: string, port: int, receiver: string)

  /** strlen an accepted line must have. */
  const LineLength := 40
  /** Characters of a MAC that the check loop examines. */
  const MacLength := 17

  // ---------------------------------------------------------------- strtok(…, ",")

  /** First position at or after i that is not a comma (or |s|). */
  function SkipCommas(s: string, i: nat): (j: nat)
    requires i <= |s|
    ensures i <= j <= |s|
    ensures forall k :: i <= k < j ==> s[k] == ','
    ensures j < |s| ==> s[j] != ','
    decreases |s| - i
  {
    if i < |s| && s[i] == ',' then SkipCommas(s, i + 1) else i
  }

  /** First position at or after i that is a comma (or |s|). */
  function TokenEnd(s: string, i: nat): (j: nat)
    requires i <= |s|
    ensures i <= j <= |s|
    ensures forall k :: i <= k < j ==> s[k] != ','
    ensures j < |s| ==> s[j] == ','
    decreases |s| - i
  {
    if i < |s| && s[i] != ',' then TokenEnd(s, i + 1) else i
  }

  /** One call of strtok with the delimiter set ",", resuming at `pos`: leading commas are
      skipped; None when nothing else is left, else the token up to the next comma and the
      position after the comma it overwrote (or the end). */
  function StrTok(s: string, pos: nat): (r: Option<(string, nat)>)
    requires pos <= |s|
    ensures r.Some? ==> pos < r.value.1 <= |s| && r.value.0 != []
  {
    var a := SkipCommas(s, pos);
    if a == |s| then None
    else
      var b := TokenEnd(s, a);
      Some((s[a..b], if b < |s| then b + 1 else b))
  }

  /** strtok returns NULL exactly when only commas are left from `pos`, and a token it returns
      holds no comma. */
  lemma StrTokSpec(s: string, pos: nat)
    requires pos <= |s|
    ensures StrTok(s, pos).None? <==> forall k :: pos <= k < |s| ==> s[k] == ','
    ensures StrTok(s, pos).Some? ==> forall c :: c in StrTok(s, pos).value.0 ==> c != ','
  {
    var a := SkipCommas(s, pos);
    if a < |s| {
      assert s[a] != ',';
    }
  }

  // ---------------------------------------------------------------- atoi

  predicate IsSpace(c: char)
  {
    c == ' ' || c == '\t' || c == '\n' || c == '\r' || c == '\U{000B}' || c == '\U{000C}'
  }

  predicate IsDigit(c: char)
  {
    '0' <= c <= '9'
  }

  function SkipSpaces(s: string, i: nat): (j: nat)
    requires i <= |s|
    ensures i <= j <= |s|
    decreases |s| - i
  {
    if i < |s| && IsSpace(s[i]) then SkipSpaces(s, i + 1) else i
  }

  /** The digits from position i on, read onto the value `acc` already accumulated. */
  function Digits(s: string, i: nat, acc: int): int
    requires i <= |s|
    decreases |s| - i
  {
    if i < |s| && IsDigit(s[i]) then Digits(s, i + 1, 10 * acc + (s[i] as int - '0' as int))
    else acc
  }

  /** atoi: leading white space, an optional sign, then the longest run of decimal digits;
      0 when there are none. */
  function Atoi(s: string): int
  {
    var i := SkipSpaces(s, 0);
    if i < |s| && s[i] == '-' then -Digits(s, i + 1, 0)
    else if i < |s| && s[i] == '+' then Digits(s, i + 1, 0)
    else Digits(s, i, 0)
  }

  function Pow10(n: nat): (r: nat)
    ensures r >= 1
  {
    if n == 0 then 1 else 10 * Pow10(n - 1)
  }

  lemma {:induction false} Pow10Monotone(n: nat, m: nat)
    requires n <= m
    ensures Pow10(n) <= Pow10(m)
    decreases m
  {
    if n < m {
      Pow10Monotone(n, m - 1);
    }
  }

  lemma MulLeft(a: int, b: int, p: nat)
    requires a <= b
    ensures a * p <= b * p
  {
  }

  /** Reading the remaining |s| - i characters onto acc gives less than (acc + 1) * 10^(|s| - i). */
  lemma {:induction false} DigitsBound(s: string, i: nat, acc: int)
    requires i <= |s| && 0 <= acc
    ensures 0 <= Digits(s, i, acc) < (acc + 1) * Pow10(|s| - i)
    decreases |s| - i
  {
    var n := |s| - i;
    if i < |s| && IsDigit(s[i]) {
      var d := s[i] as int - '0' as int;
      DigitsBound(s, i + 1, 10 * acc + d);
      DigitStep(acc, d, Pow10(n - 1), Digits(s, i, acc));
    } else {
      MulLeft(1, acc + 1, Pow10(n));
    }
  }

  /** One more digit multiplies the bound by ten. */
  lemma DigitStep(acc: int, d: int, p: nat, x: int)
    requires 0 <= acc && 0 <= d <= 9 && x < (10 * acc + d + 1) * p
    ensures x < (acc + 1) * (10 * p)
  {
    MulLeft(10 * acc + d + 1, 10 * (acc + 1), p);
    assert 10 * (acc + 1) * p == (acc + 1) * (10 * p);
  }

  /** atoi of at most four characters lies in -999..9999, so C's int holds it and the model's
      unbounded integers are exact. */
  lemma AtoiShort(s: string)
    requires |s| <= 4
    ensures -999 <= Atoi(s) <= 9999
  {
    var i := SkipSpaces(s, 0);
    if i < |s| && (s[i] == '-' || s[i] == '+') {
      DigitsBound(s, i + 1, 0);
      Pow10Monotone(|s| - (i + 1), 3);
    } else {
      DigitsBound(s, i, 0);
      Pow10Monotone(|s| - i, 4);
    }
  }

  // ---------------------------------------------------------------- the MAC check loop

  /** The character the check loop reads at index i of a MAC buffer filled by strcpy from
      `tok`: the token's characters, then its terminating NUL. Bytes past the NUL are left
      over from earlier lines in the buffer; they never decide the outcome, because the NUL at
      index |tok| < 17 already fails the check. */
  function BufferChar(tok: string, i: nat): char
  {
    if i < |tok| then tok[i] else '\0'
  }

  /** The test applied at index i of both MACs: a colon where i % 3 == 2, elsewhere any
      character from '0' to 'F' in ASCII order (which lets through :;<=>?@ as well). */
  predicate MacCharOk(c: char, i: nat)
  {
    if i % 3 == 2 then c == ':' else '0' <= c <= 'F'
  }

  /** A MAC token passes the check loop. */
  predicate MacAccepted(tok: string)
  {
    forall i :: 0 <= i < MacLength ==> MacCharOk(BufferChar(tok, i), i)
  }

  /** The per-record validation: length and the commas at 17 and 22, three strtok calls, atoi
      of the second token, then the loop over the 17 MAC positions that raises `error`. */
  function ParseRecord(line: string): Option<Record>
  {
    if |line| != LineLength || line[17] != ',' || line[22] != ',' then None
    else
      match StrTok(line, 0)
      case None => None
      case Some((sender, p1)) =>
        match StrTok(line, p1)
        case None => None
        case Some((portField, p2)) =>
          match StrTok(line, p2)
          case None => None
          case Some((receiver, _)) =>
            if MacAccepted(sender) && MacAccepted(receiver)
            then Some(Record(sender, Atoi(portField), receiver))
            else None
  }

  /** The validation as main performs it, with the flag-setting check loop. */
  method ValidateRecord(line: string) returns (r: Option<Record>)
    ensures r == ParseRecord(line)
  {
    // main tests tokens[17] and tokens[22] before strlen; the model tests the length
    // first so that it may index the line. The outcome is the same.
    if |line| != LineLength || line[17] != ',' || line[22] != ',' {
      return None;
    }
    var t1 := StrTok(line, 0);
    if t1.None? {
      return None;
    }
    var t2 := StrTok(line, t1.value.1);
    if t2.None? {
      return None;
    }
    var t3 := StrTok(line, t2.value.1);
    if t3.None? {
      return None;
    }
    var sender, port, receiver := t1.value.0, Atoi(t2.value.0), t3.value.0;
    var error := false;
    for i := 0 to MacLength
      invariant error <==> (exists j :: 0 <= j < i &&
                              !(MacCharOk(BufferChar(sender, j), j) && MacCharOk(BufferChar(receiver, j), j)))
    {
      if i % 3 == 2 {
        if BufferChar(sender, i) != ':' || BufferChar(receiver, i) != ':' {
          error := true;
        }
      } else {
        if !('0' <= BufferChar(sender, i) <= 'F') || !('0' <= BufferChar(receiver, i) <= 'F') {
          error := true;
        }
      }
    }
    if error {
      return None;
    }
    return Some(Record(sender, port, receiver));
  }

  // ---------------------------------------------------------------- what is accepted

  /** A MAC field written out: 17 characters, each passing the test of its index. */
  ghost predicate MacField(m: string)
  {
    |m| == MacLength && forall i :: 0 <= i < MacLength ==> MacCharOk(m[i], i)
  }

  /** The port field line[18..22) holds one run [a, b) of non-commas and only commas around
      it; that run is the token atoi reads. */
  ghost predicate PortSpan(line: string, a: nat, b: nat)
  {
    18 <= a < b <= 22 && |line| == LineLength
    && (forall k :: 18 <= k < a ==> line[k] == ',')
    && (forall k :: a <= k < b ==> line[k] != ',')
    && (forall k :: b <= k < 22 ==> line[k] == ',')
  }

  /** A token the check loop accepts has at least 17 characters: a shorter one puts its NUL at
      a checked index. */
  lemma MacAcceptedLength(tok: string)
    requires MacAccepted(tok)
    ensures |tok| >= MacLength
  {
    assert |tok| < MacLength ==> !MacCharOk(BufferChar(tok, |tok|), |tok|);
  }

  /** SkipCommas stops at j when [i, j) are commas and j is not. */
  lemma SkipCommasAt(s: string, i: nat, j: nat)
    requires i <= j <= |s|
    requires forall k :: i <= k < j ==> s[k] == ','
    requires j < |s| ==> s[j] != ','
    ensures SkipCommas(s, i) == j
  {
  }

  /** TokenEnd stops at j when [i, j) are not commas and j is one (or the end). */
  lemma TokenEndAt(s: string, i: nat, j: nat)
    requires i <= j <= |s|
    requires forall k :: i <= k < j ==> s[k] != ','
    requires j < |s| ==> s[j] == ','
    ensures TokenEnd(s, i) == j
  {
  }

  /** On a line with a comma at c, a token that starts at or before c ends at or before c. */
  lemma TokenEndBefore(s: string, a: nat, c: nat)
    requires a <= c < |s| && s[c] == ','
    ensures TokenEnd(s, a) <= c
  {
  }

  /** On a 40-character line with commas at 17 and 22, a token of 17 or more characters is
      either line[..17], followed by position 18, or line[23..], followed by the end. */
  lemma LongToken(line: string, pos: nat)
    requires |line| == LineLength && line[17] == ',' && line[22] == ','
    requires pos <= |line| && StrTok(line, pos).Some?
    requires |StrTok(line, pos).value.0| >= MacLength
    ensures var (tok, next) := StrTok(line, pos).value;
      (pos == 0 && tok == line[..17] && next == 18) || (pos <= 23 && tok == line[23..] && next == 40)
  {
    var a := SkipCommas(line, pos);
    var b := TokenEnd(line, a);
    if a <= 17 {
      TokenEndBefore(line, a, 17);
      assert a == 0 && b == 17;
    } else if a >= 23 {
      assert a == 23 && b == 40;
      assert line[23..40] == line[23..];
    }
  }

  /** A MAC token of exactly 17 characters that passes the check loop is a MacField. */
  lemma AcceptedMacField(tok: string)
    requires |tok| == MacLength && MacAccepted(tok)
    ensures MacField(tok)
  {
    forall i | 0 <= i < MacLength
      ensures MacCharOk(tok[i], i)
    {
      assert BufferChar(tok, i) == tok[i];
    }
  }

  /** Every accepted record has the fixed layout: a line of 40 characters with commas at 17
      and 22, a well-formed MAC in each of line[..17] and line[23..], and a port read from a
      single run of non-commas inside line[18..22). Lines of another length, with commas
      elsewhere, or whose MAC tokens are shorter than 17 characters are rejected. */
  lemma ParseRecordSound(line: string)
    requires ParseRecord(line).Some?
    ensures |line| == LineLength && line[17] == ',' && line[22] == ','
    ensures MacField(line[..17]) && MacField(line[23..])
    ensures exists a: nat, b: nat ::
              PortSpan(line, a, b) && ParseRecord(line).value == Record(line[..17], Atoi(line[a..b]), line[23..])
  {
    var (sender, p1) := StrTok(line, 0).value;
    var (portField, p2) := StrTok(line, p1).value;
    var (receiver, p3) := StrTok(line, p2).value;
    assert MacAccepted(sender) && MacAccepted(receiver);
    MacAcceptedLength(sender);
    MacAcceptedLength(receiver);
    LongToken(line, 0);
    assert sender == line[..17] && p1 == 18;
    LongToken(line, p2);
    assert receiver == line[23..];
    AcceptedMacField(sender);
    AcceptedMacField(receiver);
    // the port token lies between the two MACs
    var a := SkipCommas(line, 18);
    var b := TokenEnd(line, a);
    assert portField == line[a..b];
    assert SkipCommas(line, p2) == 23;
    assert a < 22;
    TokenEndBefore(line, a, 22);
    assert PortSpan(line, a, b);
  }

  /** Conversely, every line of that layout is accepted, with those fields. */
  lemma ParseRecordComplete(line: string, a: nat, b: nat)
    requires |line| == LineLength && line[17] == ',' && line[22] == ','
    requires MacField(line[..17]) && MacField(line[23..])
    requires PortSpan(line, a, b)
    ensures ParseRecord(line) == Some(Record(line[..17], Atoi(line[a..b]), line[23..]))
  {
    assert forall k :: 0 <= k < 17 ==> line[k] == line[..17][k];
    assert forall k :: 23 <= k < 40 ==> line[k] == line[23..][k - 23];
    assert forall k :: 0 <= k < 17 ==> line[k] != ',' by {
      forall k | 0 <= k < 17 ensures line[k] != ',' {
        assert MacCharOk(line[..17][k], k);
      }
    }
    assert forall k :: 23 <= k < 40 ==> line[k] != ',' by {
      forall k | 23 <= k < 40 ensures line[k] != ',' {
        assert MacCharOk(line[23..][k - 23], k - 23);
      }
    }
    SkipCommasAt(line, 0, 0);
    TokenEndAt(line, 0, 17);
    assert StrTok(line, 0) == Some((line[..17], 18));
    SkipCommasAt(line, 18, a);
    TokenEndAt(line, a, b);
    assert StrTok(line, 18) == Some((line[a..b], b + 1));
    SkipCommasAt(line, b + 1, 23);
    TokenEndAt(line, 23, 40);
    assert line[23..40] == line[23..];
    assert StrTok(line, b + 1) == Some((line[23..], 40));
    assert MacAccepted(line[..17]) by {
      forall i | 0 <= i < MacLength ensures MacCharOk(BufferChar(line[..17], i), i) {
        assert MacCharOk(line[..17][i], i);
      }
    }
    assert MacAccepted(line[23..]) by {
      forall i | 0 <= i < MacLength ensures MacCharOk(BufferChar(line[23..], i), i) {
        assert MacCharOk(line[23..][i], i);
      }
    }
  }

  /** A sender character that fails its position's test rejects the line. */
  lemma BadSenderCharRejected(line: string, i: nat)
    requires |line| == LineLength && i < MacLength && !MacCharOk(line[i], i)
    ensures ParseRecord(line) == None
  {
    if ParseRecord(line).Some? {
      ParseRecordSound(line);
    }
  }

  /** An accepted port lies in -999..9999: the port token has at most four characters. */
  lemma AcceptedPortRange(line: string)
    requires ParseRecord(line).Some?
    ensures -999 <= ParseRecord(line).value.port <= 9999
  {
    ParseRecordSound(line);
    var a: nat, b: nat :| PortSpan(line, a, b)
      && ParseRecord(line).value == Record(line[..17], Atoi(line[a..b]), line[23..]);
    AtoiShort(line[a..b]);
  }
}
