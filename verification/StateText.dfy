/** The state line of state.c: state_unparse prints it, state_parse reads it back in place,
    and state_write and state_read carry it through a file with a newline at its end. */
module StateText {
  import opened Bytes
  import opened HexText
  import opened TokenState

  const MAX_STATE_LEN := 892
  const MAX_USERNAME_LEN := 31

  // ---- C strings ----------------------------------------------------------

  /** The string that starts at the front of a buffer: everything before the first NUL. */
  function CString(s: string): (t: string)
    ensures '\0' !in t && t <= s
  {
    if s == [] || s[0] == '\0' then [] else [s[0]] + CString(s[1..])
  }

  lemma {:induction false} CStringOfTerminated(t: string, more: string)
    requires '\0' !in t
    ensures CString(t + ['\0'] + more) == t
  {
    var s := t + ['\0'] + more;
    if t != [] {
      CStringOfTerminated(t[1..], more);
      assert s[1..] == t[1..] + ['\0'] + more;
    }
  }

  // ---- the line as a function of the state --------------------------------

  function Unparse(username: string, r: Record): string {
    "5:" + username + ":" + Encode(r.challenge) + ":" + r.csd + ":" + r.rd + ":"
    + Print(r.failcount) + ":" + Print(r.authtime) + ":" + Print(r.mincardtime) + ":"
  }

  datatype Parsed = Null | Bad | Good(r: Record)

  /** The text up to the first colon and the text after it. */
  function Field(s: string): Option<(string, string)> {
    if s == [] then None
    else if s[0] == ':' then Some(("", s[1..]))
    else
      match Field(s[1..])
      case None => None
      case Some((field, rest)) => Some(([s[0]] + field, rest))
  }

  lemma {:induction false} FieldSplits(s: string)
    ensures Field(s).None? <==> ':' !in s
    ensures Field(s).Some? ==>
      var (f, rest) := Field(s).value; ':' !in f && s == f + ":" + rest
  {
    if s != [] && s[0] != ':' {
      FieldSplits(s[1..]);
      assert s == [s[0]] + s[1..];
    }
  }

  lemma {:induction false} FieldOf(f: string, rest: string)
    requires ':' !in f
    ensures Field(f + ":" + rest) == Some((f, rest))
  {
    var s := f + ":" + rest;
    if f == [] {
      assert s[1..] == rest;
    } else {
      FieldOf(f[1..], rest);
      assert s[1..] == f[1..] + ":" + rest;
      assert f == [f[0]] + f[1..];
    }
  }

  /** A field that must hold a hexadecimal number. */
  function NumberField(s: string): Option<(uint32, string)> {
    match Field(s)
    case None => None
    case Some((field, rest)) =>
      match Scan(field)
      case None => None
      case Some(n) => Some((n, rest))
  }

  /** A field of bounded length. */
  function TextField(s: string, max: nat): Option<(string, string)> {
    match Field(s)
    case None => None
    case Some((field, rest)) => if |field| > max then None else Some((field, rest))
  }

  /** The challenge field: an even number of hexadecimal digits, at most 16 octets. */
  function ChallengeField(s: string): Option<(seq<uchar>, string)> {
    match TextField(s, 2 * MAX_CHALLENGE_LEN)
    case None => None
    case Some((field, rest)) =>
      if |field| % 2 == 1 then None
      else
        match Decode(field, |field| / 2)
        case None => None
        case Some(x) => Some((x, rest))
  }

  function ParseNumbers(s: string): Option<(uint32, uint32, uint32)> {
    match NumberField(s)
    case None => None
    case Some((failcount, s1)) =>
      match NumberField(s1)
      case None => None
      case Some((authtime, s2)) =>
        match NumberField(s2)
        case None => None
        case Some((mincardtime, _)) => Some((failcount, authtime, mincardtime))
  }

  function ParseFields(s: string): Parsed {
    match ChallengeField(s)
    case None => Bad
    case Some((challenge, s1)) =>
      match TextField(s1, MAX_CSD_LEN)
      case None => Bad
      case Some((csd, s2)) =>
        match TextField(s2, MAX_RD_LEN)
        case None => Bad
        case Some((rd, s3)) =>
          match ParseNumbers(s3)
          case None => Bad
          case Some((failcount, authtime, mincardtime)) =>
            Good(Record(challenge, csd, rd, failcount, authtime, mincardtime))
  }

  /** state_parse on the string in a buffer of which buflen characters count. */
  function Parse(t: string, buflen: nat, username: string): Parsed {
    if buflen == 0 then Null
    else if buflen < 4 + |username| then Bad
    else if !("5:" + username + ":" <= t) then Bad
    else ParseFields(t[3 + |username|..])
  }

  // ---- clean text ---------------------------------------------------------

  predicate Clean(s: string, max: nat) {
    ':' !in s && '\0' !in s && |s| <= max
  }

  /** A record as state_t can hold it. */
  predicate Fits(r: Record) {
    |r.challenge| <= MAX_CHALLENGE_LEN && Clean(r.csd, MAX_CSD_LEN) && Clean(r.rd, MAX_RD_LEN)
  }

  lemma DigitsAreClean(s: string)
    requires forall c | c in s :: IsDigit(c)
    ensures ':' !in s && '\0' !in s
  {
  }

  lemma {:induction false} EncodeIsDigits(x: seq<uchar>)
    ensures forall c | c in Encode(x) :: IsDigit(c)
  {
    if x != [] {
      EncodeIsDigits(x[1..]);
      PairOfOctet(x[0]);
    }
  }

  lemma Halves(n: nat)
    ensures (2 * n) % 2 == 0 && (2 * n) / 2 == n
  {
  }

  // ---- which lines are states ---------------------------------------------

  /** The fields of a line, each free of colons. */
  datatype Fields = Fields(challenge: string, csd: string, rd: string, failcount: string, authtime: string, mincardtime: string)

  predicate NoColons(f: Fields) {
    ':' !in f.challenge && ':' !in f.csd && ':' !in f.rd && ':' !in f.failcount && ':' !in f.authtime && ':' !in f.mincardtime
  }

  /** A line of version 5 for this user, with these fields in this order, and anything behind. */
  predicate IsLine(t: string, username: string, f: Fields, rest: string) {
    t == "5:" + username + ":" + f.challenge + ":" + f.csd + ":" + f.rd + ":" + f.failcount + ":" + f.authtime + ":"
      + f.mincardtime + ":" + rest
  }

  /** The challenge is up to 16 octets in hexadecimal, the others have their lengths, and the last
      three are numbers. */
  predicate Readable(f: Fields) {
    && |f.challenge| <= 32 && |f.challenge| % 2 == 0 && (forall i | 0 <= i < |f.challenge| :: IsDigit(f.challenge[i]))
    && |f.csd| <= 63 && |f.rd| <= 31
    && Scan(f.failcount).Some? && Scan(f.authtime).Some? && Scan(f.mincardtime).Some?
  }

  /** The record that the fields stand for. */
  function Meaning(f: Fields): Record
    requires Readable(f)
  {
    EncodeDecode(f.challenge, |f.challenge| / 2);
    Record(Decode(f.challenge, |f.challenge| / 2).value, f.csd, f.rd,
           Scan(f.failcount).value, Scan(f.authtime).value, Scan(f.mincardtime).value)
  }

  /** The part of a line after the name. */
  function AfterName(f: Fields, rest: string): string {
    f.challenge + ":" + (f.csd + ":" + (f.rd + ":" + AfterRd(f, rest)))
  }

  function AfterRd(f: Fields, rest: string): string {
    f.failcount + ":" + (f.authtime + ":" + (f.mincardtime + ":" + rest))
  }

  lemma LineIs(t: string, username: string, f: Fields, rest: string)
    ensures IsLine(t, username, f, rest) <==> t == "5:" + username + ":" + AfterName(f, rest)
  {
    assert AfterName(f, rest) == f.challenge + ":" + f.csd + ":" + f.rd + ":" + f.failcount + ":" + f.authtime + ":"
      + f.mincardtime + ":" + rest;
  }

  lemma ParseAfterRd(f: Fields, rest: string)
    requires NoColons(f)
    ensures ParseNumbers(AfterRd(f, rest)) ==
      if Scan(f.failcount).Some? && Scan(f.authtime).Some? && Scan(f.mincardtime).Some? then
        Some((Scan(f.failcount).value, Scan(f.authtime).value, Scan(f.mincardtime).value))
      else None
  {
    FieldOf(f.failcount, f.authtime + ":" + (f.mincardtime + ":" + rest));
    FieldOf(f.authtime, f.mincardtime + ":" + rest);
    FieldOf(f.mincardtime, rest);
  }

  lemma ParseAfterName(f: Fields, rest: string)
    requires NoColons(f)
    ensures ParseFields(AfterName(f, rest)) == if Readable(f) then Good(Meaning(f)) else Bad
  {
    var s2 := f.rd + ":" + AfterRd(f, rest);
    FieldOf(f.challenge, f.csd + ":" + s2);
    if |f.challenge| % 2 == 0 {
      EncodeDecode(f.challenge, |f.challenge| / 2);
    }
    FieldOf(f.csd, s2);
    FieldOf(f.rd, AfterRd(f, rest));
    ParseAfterRd(f, rest);
  }

  /** What a line with these fields is read as. */
  lemma ParseOfFields(t: string, buflen: nat, username: string, f: Fields, rest: string)
    requires IsLine(t, username, f, rest) && NoColons(f) && buflen >= 4 + |username|
    ensures Parse(t, buflen, username) == if Readable(f) then Good(Meaning(f)) else Bad
  {
    var head := "5:" + username + ":";
    LineIs(t, username, f, rest);
    assert head <= t && t[3 + |username|..] == AfterName(f, rest);
    ParseAfterName(f, rest);
  }

  /** And only such lines are states. */
  lemma ParsedHasFields(t: string, buflen: nat, username: string) returns (f: Fields, rest: string)
    requires Parse(t, buflen, username).Good?
    ensures IsLine(t, username, f, rest) && NoColons(f) && Readable(f)
  {
    var s := t[3 + |username|..];
    f, rest := FieldsFrom(s);
    assert t == "5:" + username + ":" + s;
    LineIs(t, username, f, rest);
    ParseAfterName(f, rest);
  }

  lemma FieldsFrom(s: string) returns (f: Fields, rest: string)
    requires ParseFields(s).Good?
    ensures s == AfterName(f, rest) && NoColons(f)
  {
    FieldSplits(s);
    var (challenge, s1) := Field(s).value;
    FieldSplits(s1);
    var (csd, s2) := Field(s1).value;
    FieldSplits(s2);
    var (rd, s3) := Field(s2).value;
    FieldSplits(s3);
    var (failcount, s4) := Field(s3).value;
    FieldSplits(s4);
    var (authtime, s5) := Field(s4).value;
    FieldSplits(s5);
    var (mincardtime, s6) := Field(s5).value;
    f, rest := Fields(challenge, csd, rd, failcount, authtime, mincardtime), s6;
    assert f.mincardtime + ":" + rest == s5 && f.authtime + ":" + s5 == s4 && f.failcount + ":" + s4 == s3;
  }

  /** What is printed has the record's fields in that order. */
  lemma UnparseIsLine(username: string, r: Record)
    requires Fits(r)
    ensures var f := Printed(r);
      IsLine(Unparse(username, r), username, f, "") && NoColons(f) && Readable(f) && Meaning(f) == r
  {
    EncodeIsDigits(r.challenge);
    DecodeEncode(r.challenge);
    PrintDigits(r.failcount);
    PrintDigits(r.authtime);
    PrintDigits(r.mincardtime);
    ScanPrint(r.failcount);
    ScanPrint(r.authtime);
    ScanPrint(r.mincardtime);
    Halves(|r.challenge|);
  }

  function Printed(r: Record): Fields {
    Fields(Encode(r.challenge), r.csd, r.rd, Print(r.failcount), Print(r.authtime), Print(r.mincardtime))
  }

  // ---- the parser undoes the printer --------------------------------------

  /** Round trip: whatever state was printed is read back, field by field. */
  lemma ParseUnparse(username: string, r: Record)
    requires Fits(r)
    ensures var t := Unparse(username, r); Parse(t, |t| + 1, username) == Good(r)
  {
    UnparseIsLine(username, r);
    ParseOfFields(Unparse(username, r), |Unparse(username, r)| + 1, username, Printed(r), "");
  }

  // ---- printing what was read is stable -----------------------------------

  lemma CleanFields(s: string, max: nat)
    requires '\0' !in s
    ensures var f := TextField(s, max); f.Some? ==> Clean(f.value.0, max) && '\0' !in f.value.1
  {
    FieldSplits(s);
  }

  /** Any accepted line yields a record that fits, so printing and reading it again is stable. */
  lemma ReparseIsStable(t: string, buflen: nat, username: string)
    requires '\0' !in t && Parse(t, buflen, username).Good?
    ensures var r := Parse(t, buflen, username).r; var t' := Unparse(username, r);
      Fits(r) && Parse(t', |t'| + 1, username) == Good(r)
  {
    var s := t[3 + |username|..];
    CleanFields(s, 2 * MAX_CHALLENGE_LEN);
    var s1 := ChallengeField(s).value.1;
    CleanFields(s1, MAX_CSD_LEN);
    CleanFields(TextField(s1, MAX_CSD_LEN).value.1, MAX_RD_LEN);
    ParseUnparse(username, Parse(t, buflen, username).r);
  }

  // ---- the line fits and is one line --------------------------------------

  lemma {:induction false} Print32Length(n: uint32)
    ensures |Print(n)| <= 8
  {
    assert Pow16(4) == 0x1_0000 && Pow16(8) == Pow16(4) * 0x1_0000 by {
      assert Pow16(6) == 0x100 * Pow16(4);
    }
    PrintLength(n, 8);
  }

  lemma UnparseLength(username: string, r: Record)
    requires Fits(r) && |username| <= MAX_USERNAME_LEN
    ensures 4 + |username| < |Unparse(username, r)| <= 190
  {
    Print32Length(r.failcount);
    Print32Length(r.authtime);
    Print32Length(r.mincardtime);
  }

  // ---- through the state file ---------------------------------------------

  /** What state_write stores: the line with a newline after it. */
  function FileText(t: string): string {
    if t != [] && t[|t| - 1] != '\n' then t + "\n" else t
  }

  /** What state_read leaves in its buffer, NUL included; None for a file that is too large. */
  function Buffer(file: string): Option<string> {
    if |file| > MAX_STATE_LEN then None
    else if file == [] then Some("")
    else if file[|file| - 1] == '\n' then Some(file[..|file| - 1] + ['\0'])
    else Some(file + ['\0'])
  }

  function ReadBack(file: string, username: string): Parsed {
    match Buffer(file)
    case None => Bad
    case Some(b) => Parse(CString(b), |b|, username)
  }

  /** A state is null exactly if its file is missing or empty; a file of more than 892 characters is
      no state. */
  lemma NullExactly(file: string, username: string)
    ensures ReadBack(file, username) == Null <==> file == ""
    ensures |file| > 892 ==> ReadBack(file, username) == Bad
  {
  }

  lemma BufferOfLine(t: string)
    requires '\0' !in t && t != [] && t[|t| - 1] != '\n' && |t| < MAX_STATE_LEN
    ensures Buffer(FileText(t)) == Some(t + ['\0']) && CString(t + ['\0']) == t
  {
    CStringOfTerminated(t, "");
    assert t + ['\0'] + "" == t + ['\0'];
    assert FileText(t)[..|t|] == t;
  }

  /** What was put in the file is what the next get sees. */
  lemma FileRoundTrip(username: string, r: Record)
    requires Fits(r) && '\0' !in username && |username| <= MAX_USERNAME_LEN
    ensures ReadBack(FileText(Unparse(username, r)), username) == Good(r)
  {
    var t := Unparse(username, r);
    UnparseLength(username, r);
    UnparseHasNoNul(username, r);
    BufferOfLine(t);
    ParseUnparse(username, r);
  }

  lemma UnparseHasNoNul(username: string, r: Record)
    requires Fits(r) && '\0' !in username
    ensures '\0' !in Unparse(username, r)
  {
    EncodeIsDigits(r.challenge);
    DigitsAreClean(Encode(r.challenge));
    NumberIsClean(r.failcount);
    NumberIsClean(r.authtime);
    NumberIsClean(r.mincardtime);
  }

  lemma NumberIsClean(n: nat)
    ensures '\0' !in Print(n)
  {
    PrintDigits(n);
    DigitsAreClean(Print(n));
  }

  // ---- the parser itself --------------------------------------------------

  /** The string at position p of the buffer. */
  ghost function TextAt(buf: array<char>, p: nat, end: nat): string
    requires p <= end <= buf.Length
    reads buf
  {
    CString(buf[p..end])
  }

  /** A colon found before any NUL ends the first field. */
  lemma {:induction false} FieldAtColon(s: string, n: nat)
    requires n < |s| && s[n] == ':' && forall i | 0 <= i < n :: s[i] != ':' && s[i] != '\0'
    ensures Field(CString(s)) == Some((s[..n], CString(s[n + 1..])))
  {
    var t := s[1..];
    assert CString(s)[1..] == CString(t);
    if n > 0 {
      FieldAtColon(t, n - 1);
      assert t[n..] == s[n + 1..];
      assert s[..n] == [s[0]] + t[..n - 1];
    }
  }

  lemma {:induction false} NoFieldBeforeNul(s: string, n: nat)
    requires n < |s| && s[n] == '\0' && forall i | 0 <= i < n :: s[i] != ':'
    ensures Field(CString(s)).None?
  {
    if n > 0 && s[0] != '\0' {
      NoFieldBeforeNul(s[1..], n - 1);
      assert CString(s)[1..] == CString(s[1..]);
    }
  }

  /** strchr(p, ':') up to the terminating NUL. */
  method FindColon(buf: array<char>, p: nat, end: nat) returns (q: nat)
    requires p < end <= buf.Length && buf[end - 1] == '\0'
    ensures p <= q < end && (buf[q] == ':' || buf[q] == '\0')
    ensures forall i | p <= i < q :: buf[i] != ':' && buf[i] != '\0'
  {
    q := p;
    while buf[q] != ':' && buf[q] != '\0'
      invariant p <= q < end
      invariant forall i | p <= i < q :: buf[i] != ':' && buf[i] != '\0'
      decreases end - q
    {
      q := q + 1;
    }
  }

  /** *q++ = NUL: the text before and after q is untouched. */
  method Cut(buf: array<char>, p: nat, q: nat, end: nat)
    requires p <= q < end - 1 && end <= buf.Length && buf[end - 1] == '\0'
    modifies buf
    ensures buf[p..q] == old(buf[p..end])[..q - p]
    ensures buf[q + 1..end] == old(buf[p..end])[q - p + 1..]
    ensures buf[end - 1] == '\0'
  {
    buf[q] := '\0';
  }

  /** strchr(p, ':'), then the NUL in its place: the field is buf[p..q - 1], the rest starts
      at q. */
  method NextField(buf: array<char>, p: nat, end: nat) returns (found: bool, q: nat)
    requires p < end <= buf.Length && buf[end - 1] == '\0'
    modifies buf
    ensures buf[end - 1] == '\0'
    ensures found <==> Field(old(TextAt(buf, p, end))).Some?
    ensures found ==> p < q < end && Field(old(TextAt(buf, p, end))) == Some((buf[p..q - 1], TextAt(buf, q, end)))
  {
    q := FindColon(buf, p, end);
    ghost var s := buf[p..end];
    if buf[q] == ':' {
      FieldAtColon(s, q - p);
      Cut(buf, p, q, end);
      return true, q + 1;
    } else {
      NoFieldBeforeNul(s, q - p);
      return false, q;
    }
  }

  method ParseText(buf: array<char>, p: nat, end: nat, max: nat) returns (ok: bool, text: string, q: nat)
    requires p < end <= buf.Length && buf[end - 1] == '\0'
    modifies buf
    ensures buf[end - 1] == '\0'
    ensures ok <==> TextField(old(TextAt(buf, p, end)), max).Some?
    ensures ok ==> p < q < end && TextField(old(TextAt(buf, p, end)), max) == Some((text, TextAt(buf, q, end)))
  {
    ok, q := NextField(buf, p, end);
    text := "";
    if ok {
      text := buf[p..q - 1];
      ok := |text| <= max;
    }
  }

  method ParseNumber(buf: array<char>, p: nat, end: nat) returns (ok: bool, n: uint32, q: nat)
    requires p < end <= buf.Length && buf[end - 1] == '\0'
    modifies buf
    ensures buf[end - 1] == '\0'
    ensures ok <==> NumberField(old(TextAt(buf, p, end))).Some?
    ensures ok ==> p < q < end && NumberField(old(TextAt(buf, p, end))) == Some((n, TextAt(buf, q, end)))
  {
    n := 0;
    ok, q := NextField(buf, p, end);
    if ok {
      var v := Scan(buf[p..q - 1]);
      ok := v.Some?;
      if ok {
        n := v.value;
      }
    }
  }

  method ParseChallenge(buf: array<char>, p: nat, end: nat, state: State) returns (ok: bool, q: nat)
    requires p < end <= buf.Length && buf[end - 1] == '\0' && state.challenge.Length == MAX_CHALLENGE_LEN
    modifies buf, state`clen, state.challenge
    ensures buf[end - 1] == '\0'
    ensures ok <==> ChallengeField(old(TextAt(buf, p, end))).Some?
    ensures ok ==> p < q < end && 0 <= state.clen <= MAX_CHALLENGE_LEN
    ensures ok ==>
      ChallengeField(old(TextAt(buf, p, end))) == Some((state.challenge[..state.clen], TextAt(buf, q, end)))
  {
    var text;
    ok, text, q := ParseText(buf, p, end, 2 * MAX_CHALLENGE_LEN);
    if !ok {
      return;
    }
    if |text| % 2 == 1 {
      return false, q;
    }
    state.clen := A2x(text, state.challenge);
    if state.clen < 0 {
      return false, q;
    }
  }

  method ParseNumbersAt(buf: array<char>, p: nat, end: nat, state: State) returns (ok: bool)
    requires p < end <= buf.Length && buf[end - 1] == '\0'
    modifies buf, state`failcount, state`authtime, state`mincardtime
    ensures ok <==> ParseNumbers(old(TextAt(buf, p, end))).Some?
    ensures ok ==> ParseNumbers(old(TextAt(buf, p, end))) == Some((state.failcount, state.authtime, state.mincardtime))
  {
    var n, q;
    ok, n, q := ParseNumber(buf, p, end);
    if !ok {
      return;
    }
    state.failcount := n;
    ok, n, q := ParseNumber(buf, q, end);
    if !ok {
      return;
    }
    state.authtime := n;
    ok, n, q := ParseNumber(buf, q, end);
    if ok {
      state.mincardtime := n;
    }
  }

  method ParseFieldsAt(buf: array<char>, p: nat, end: nat, state: State) returns (ok: bool)
    requires p < end <= buf.Length && buf[end - 1] == '\0' && state.challenge.Length == MAX_CHALLENGE_LEN
    modifies buf, state`clen, state`csd, state`rd, state`failcount, state`authtime, state`mincardtime, state.challenge
    ensures ok <==> ParseFields(old(TextAt(buf, p, end))).Good?
    ensures ok ==> state.Valid() && ParseFields(old(TextAt(buf, p, end))) == Good(state.Contents())
  {
    var q, text;
    ok, q := ParseChallenge(buf, p, end, state);
    if !ok {
      return;
    }
    ok, text, q := ParseText(buf, q, end, MAX_CSD_LEN);
    if !ok {
      return;
    }
    state.csd := text;
    ok, text, q := ParseText(buf, q, end, MAX_RD_LEN);
    if !ok {
      return;
    }
    state.rd := text;
    ok := ParseNumbersAt(buf, q, end, state);
  }

  /** strncmp(p, s, |s|) == 0. */
  method StartsWith(buf: array<char>, p: nat, s: string) returns (b: bool)
    requires p + |s| <= buf.Length
    ensures b <==> buf[p..p + |s|] == s
  {
    for i := 0 to |s|
      invariant buf[p..p + i] == s[..i]
    {
      if buf[p + i] != s[i] {
        assert buf[p..p + |s|][i] != s[i];
        return false;
      }
    }
    return true;
  }

  predicate HeadIs(b: string, username: string)
    requires |b| >= 4 + |username|
  {
    b[0] == '5' && b[1] == ':' && b[2..2 + |username|] == username && b[2 + |username|] == ':'
  }

  lemma HeadIsPrefix(b: string, username: string)
    requires |b| >= 4 + |username|
    ensures HeadIs(b, username) <==> b[..3 + |username|] == "5:" + username + ":"
  {
    var head := "5:" + username + ":";
    if b[..3 + |username|] == head {
      assert b[2..2 + |username|] == head[2..2 + |username|] == username;
    }
  }

  /** The version and user name checks, on the raw buffer. */
  lemma HeadMatches(b: string, username: string)
    requires |b| >= 4 + |username| && '\0' !in username
    ensures "5:" + username + ":" <= CString(b) <==> HeadIs(b, username)
    ensures HeadIs(b, username) ==> CString(b[3 + |username|..]) == CString(b)[3 + |username|..]
  {
    var head := "5:" + username + ":";
    HeadIsPrefix(b, username);
    if HeadIs(b, username) {
      assert b == head + b[|head|..];
      CStringOfHead(head, b[|head|..]);
    }
  }

  lemma {:induction false} CStringOfHead(head: string, rest: string)
    requires '\0' !in head
    ensures CString(head + rest) == head + CString(rest)
  {
    if head == [] {
      assert head + rest == rest;
    } else {
      CStringOfHead(head[1..], rest);
      assert (head + rest)[1..] == head[1..] + rest;
    }
  }

  /** Whether the buffer starts with the version and the user's name. */
  method HeadAt(buf: array<char>, buflen: nat, username: string) returns (ok: bool)
    requires 4 + |username| <= buflen <= buf.Length
    ensures ok <==> HeadIs(buf[..buflen], username)
  {
    if !(buf[0] == '5' && buf[1] == ':') {
      return false;
    }
    var same := StartsWith(buf, 2, username);
    assert buf[..buflen][2..2 + |username|] == buf[2..2 + |username|];
    ok := same && buf[2 + |username|] == ':';
  }

  /** state_parse: 0 with the state filled in or marked null, or -1. */
  method StateParse(buf: array<char>, buflen: nat, username: string, state: State) returns (rc: int)
    requires buflen <= buf.Length && '\0' !in username && state.challenge.Length == MAX_CHALLENGE_LEN
    requires buflen > 0 ==> buf[buflen - 1] == '\0'
    modifies buf, state, state.challenge
    ensures var parsed := Parse(CString(old(buf[..buflen])), buflen, username);
      && rc == (if parsed.Bad? then -1 else 0)
      && state.nullstate == parsed.Null?
      && (parsed.Good? ==> state.Valid() && state.Contents() == parsed.r)
    ensures state.locked == old(state.locked) && state.updated == old(state.updated)
  {
    if buflen == 0 {
      state.nullstate := true;
      return 0;
    }
    state.nullstate := false;
    if buflen < 4 + |username| {
      return -1;
    }
    HeadMatches(buf[..buflen], username);
    var ok := HeadAt(buf, buflen, username);
    if !ok {
      return -1;
    }
    assert buf[..buflen][3 + |username|..] == buf[3 + |username|..buflen];
    ok := ParseFieldsAt(buf, 3 + |username|, buflen, state);
    rc := if ok then 0 else -1;
  }

  // ---- the printer itself -------------------------------------------------

  /** sprintf: a string and its NUL at the front of a buffer. */
  method StoreString(buf: array<char>, t: string)
    requires |t| < buf.Length
    modifies buf
    ensures buf[..|t|] == t && buf[|t|] == '\0'
  {
    for i := 0 to |t|
      invariant buf[..i] == t[..i]
    {
      buf[i] := t[i];
    }
    buf[|t|] := '\0';
  }

  /** state_unparse, into a buffer of the size its callers give it. */
  method StateUnparse(buf: array<char>, username: string, state: State) returns (ghost t: string)
    requires buf.Length == MAX_STATE_LEN + 1 && |username| <= MAX_USERNAME_LEN
    requires state.Valid() && Fits(state.Contents())
    modifies buf
    ensures t == Unparse(username, state.Contents()) && |t| <= MAX_STATE_LEN
    ensures buf[..|t|] == t && buf[|t|] == '\0'
  {
    var s := new char[2 * MAX_CHALLENGE_LEN + 1](_ => '\0');
    X2a(state.challenge, state.clen, s);
    var line := "5:" + username + ":" + s[..2 * state.clen] + ":" + state.csd + ":" + state.rd + ":"
      + Print(state.failcount) + ":" + Print(state.authtime) + ":" + Print(state.mincardtime) + ":";
    t := line;
    UnparseLength(username, state.Contents());
    StoreString(buf, line);
  }
}
