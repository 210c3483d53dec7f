/** The replies of a global state manager as state.c and failover_thread.c judge them. */
module GsmReply {
  import opened Bytes

  const NONCE_LEN := 16
  const MAC_LEN := 16
  const MAX_MSG_LEN := 936
  const MAX_USERNAME_LEN := 31

  /** A datagram after decryption. genuine: its MAC is right; len and seqno are those of its
      nonce; pmsg is the receive buffer behind the nonce, which can hold more than was sent. */
  datatype Received = Received(rlen: nat, genuine: bool, len: nat, seqno: uint32, pmsg: string)

  type Datagram = d: Received | |d.pmsg| == MAX_MSG_LEN + MAC_LEN && d.len < 0x1_0000
    witness Received(0, false, 0, 0, seq(MAX_MSG_LEN + MAC_LEN, _ => '\0'))

  datatype Verdict = Ack | Nak | Stale | Malformed

  /** All checks but that of the raw length. */
  function Judge(username: string, seqno: uint32, d: Datagram): Verdict
    requires |username| <= MAX_USERNAME_LEN
  {
    var ulen := |username|;
    if !d.genuine then Malformed
    else if d.len < 3 + ulen || d.len > MAX_MSG_LEN || d.rlen - (NONCE_LEN + MAC_LEN) - d.len > 3 then Malformed
    else if d.seqno != seqno then Stale
    else if d.pmsg[1] != ' ' then Malformed
    else if d.pmsg[2..2 + ulen] != username || (d.pmsg[ulen + 2] != ' ' && d.pmsg[ulen + 2] != '\0') then Malformed
    else if d.pmsg[d.len - 1] != '\0' then Malformed
    else if d.pmsg[0] == 'A' then Ack
    else if d.pmsg[0] == 'N' then Nak
    else Malformed
  }

  /** The checks of gsmd() in state.c. */
  function Classify(username: string, seqno: uint32, d: Datagram): Verdict
    requires |username| <= MAX_USERNAME_LEN
  {
    if d.rlen < NONCE_LEN + 3 + |username| + MAC_LEN then Malformed else Judge(username, seqno, d)
  }

  // ---- replies as managers write them -------------------------------------

  /** A genuine datagram of admissible length: its text and up to three octets of padding. */
  predicate Sized(username: string, d: Datagram) {
    d.genuine && 3 + |username| <= d.len <= 936 && d.rlen <= 32 + d.len + 3
  }

  /** A reply to request seqno of this user: a letter, a space, the user's name, then nothing more
      or a space and more text, and a NUL. */
  predicate IsReply(letter: char, username: string, seqno: uint32, d: Datagram) {
    && Sized(username, d) && d.seqno == seqno
    && [letter, ' '] + username <= d.pmsg
    && d.pmsg[2 + |username|] in {' ', '\0'} && d.pmsg[d.len - 1] == '\0'
  }

  lemma JudgeExactly(username: string, seqno: uint32, d: Datagram)
    requires |username| <= MAX_USERNAME_LEN
    ensures Judge(username, seqno, d) == Ack <==> IsReply('A', username, seqno, d)
    ensures Judge(username, seqno, d) == Nak <==> IsReply('N', username, seqno, d)
    ensures Judge(username, seqno, d) == Stale <==> Sized(username, d) && d.seqno != seqno
  {
    var u, t := |username|, d.pmsg;
    forall letter ensures [letter, ' '] + username <= t <==> t[0] == letter && t[1] == ' ' && t[2..2 + u] == username {
      StartsWith(t, letter, username);
    }
  }

  lemma StartsWith(t: string, letter: char, username: string)
    requires |t| >= 2 + |username|
    ensures [letter, ' '] + username <= t <==> t[0] == letter && t[1] == ' ' && t[2..2 + |username|] == username
  {
    var s := [letter, ' '] + username;
    assert s[2..] == username;
    assert t[..2 + |username|] == [t[0], t[1]] + t[2..2 + |username|];
  }

  /** The checks of gsmd() let a reply through if and only if it is one to this very request; a
      genuine one to another request is passed over; anything else ends the call. */
  lemma ClassifyExactly(username: string, seqno: uint32, d: Datagram)
    requires |username| <= MAX_USERNAME_LEN
    ensures var whole := d.rlen >= 35 + |username|;
      && (Classify(username, seqno, d) == Ack <==> whole && IsReply('A', username, seqno, d))
      && (Classify(username, seqno, d) == Nak <==> whole && IsReply('N', username, seqno, d))
      && (Classify(username, seqno, d) == Stale <==> whole && Sized(username, d) && d.seqno != seqno)
  {
    JudgeExactly(username, seqno, d);
  }

  /** A manager's reply, whatever it adds to the letter and the name, arrives as what it is. */
  lemma ReplyArrives(letter: char, username: string, more: string, seqno: uint32, d: Datagram)
    requires |username| <= MAX_USERNAME_LEN && (more == "" || more[0] == ' ')
    requires var text := [letter, ' '] + username + more + ['\0'];
      |text| <= 936 && d.genuine && d.seqno == seqno && d.len == |text| && 32 + |text| <= d.rlen <= 35 + |text| && text <= d.pmsg
    ensures Classify(username, seqno, d) == if letter == 'A' then Ack else if letter == 'N' then Nak else Malformed
  {
    var head := [letter, ' '] + username;
    var text := head + more + ['\0'];
    assert text[..|head|] == head && d.pmsg[..|text|] == text;
    assert d.pmsg[2 + |username|] == text[2 + |username|] == if more == "" then '\0' else more[0];
    assert d.pmsg[0] == head[0] == letter;
    ClassifyExactly(username, seqno, d);
  }
}
