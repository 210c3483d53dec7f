/** state_t of cardops.h: the per-user token state. Record is the part of it that the state
    store keeps; State is the structure that a request fills in, updates and puts back. */
module TokenState {
  import opened Bytes

  const MAX_CHALLENGE_LEN := 16
  const MAX_CSD_LEN := 63
  const MAX_RD_LEN := 31

  datatype Record = Record(
    challenge: seq<uchar>,
    csd: string,
    rd: string,
    failcount: uint32,
    authtime: uint32,
    mincardtime: uint32)

  class State {
    var locked: bool
    var nullstate: bool
    var updated: bool
    var clen: int
    const challenge: array<uchar>
    var csd: string
    var rd: string
    var failcount: uint32
    var authtime: uint32
    var mincardtime: uint32

    constructor ()
      ensures Valid() && fresh(challenge) && !locked
    {
      locked, nullstate, updated, clen := false, false, false, 0;
      challenge := new uchar[MAX_CHALLENGE_LEN](_ => 0);
      csd, rd, failcount, authtime, mincardtime := "", "", 0, 0, 0;
    }

    predicate Valid()
      reads this
    {
      challenge.Length == MAX_CHALLENGE_LEN && 0 <= clen <= MAX_CHALLENGE_LEN
    }

    function Contents(): Record
      reads this, challenge
      requires Valid()
    {
      Record(challenge[..clen], csd, rd, failcount, authtime, mincardtime)
    }

    /** Fill in the fields from a stored record. */
    method Load(r: Record)
      requires Valid() && |r.challenge| <= MAX_CHALLENGE_LEN
      modifies this, challenge
      ensures Valid() && Contents() == r
      ensures locked == old(locked) && nullstate == old(nullstate) && updated == old(updated)
    {
      clen := |r.challenge|;
      for i := 0 to clen
        invariant Valid() && clen == |r.challenge|
        invariant challenge[..i] == r.challenge[..i]
        invariant locked == old(locked) && nullstate == old(nullstate) && updated == old(updated)
      {
        challenge[i] := r.challenge[i];
      }
      csd, rd, failcount, authtime, mincardtime := r.csd, r.rd, r.failcount, r.authtime, r.mincardtime;
    }
  }
}
