/** What the UBX reader thread hands to the dispatch loop: either a text
    result (the decoder reports unparseable input as a string) or a decoded
    navigation message, told apart by its identity. */
module Ubx {

  datatype Option<+T> = None | Some(value: T)

  /** The GNSS fix type of a NAV-PVT message: the six values the UBX protocol
      defines, from no fix (0) to time only (5), one below the members of the
      program's `NAV_FIX_TYPE` enumeration. */
  type FixType = n: nat | n <= 5

  /** The identity of a decoded message the loop does not track: any name
      except the three it dispatches on. */
  type OtherIdentity = id: string | id != "NAV-PVT" && id != "NAV-RELPOSNED" && id != "NAV-SAT"
    witness "NAV-STATUS"

  /** A decoded message object. Only the attributes the dispatch loop reads
      are kept; latitude, longitude and headings are unbounded reals,
      accuracies and satellite counts are the receiver's unsigned integers. */
  datatype Message =
    | NavPvt(lat: real, lon: real, hMSL: int, hAcc: nat, vAcc: nat, fixType: FixType, difSoln: bool)
    | NavRelPosNed(relPosHeading: real, accHeading: real)
    | NavSat(iTOW: nat, numSvs: nat)
    | Other(identity: OtherIdentity)

  /** One item taken off the reader queue. */
  datatype Parsed = Text(text: string) | Decoded(msg: Message)

  /** The marker the decoder puts in its text result for a frame it could not read. */
  const UnknownProtocolMarker: string := "UNKNOWN PROTOCOL"

  /** `pat` occurs as a contiguous piece of `s` (Python's `pat in s` on strings). */
  function Contains(s: string, pat: string): (b: bool)
    ensures b ==> |pat| <= |s|
    decreases |s|
  {
    if |s| < |pat| then false
    else s[..|pat|] == pat || Contains(s[1..], pat)
  }

  /** Independent statement of `Contains`: some start index carries `pat`. */
  ghost predicate OccursAt(s: string, pat: string, i: int)
  {
    0 <= i && i + |pat| <= |s| && s[i..i + |pat|] == pat
  }

  lemma {:induction false} ContainsIffOccurs(s: string, pat: string)
    ensures Contains(s, pat) <==> exists i :: OccursAt(s, pat, i)
    decreases |s|
  {
    if |s| < |pat| {
      assert forall i :: !OccursAt(s, pat, i);
    } else if s[..|pat|] == pat {
      assert OccursAt(s, pat, 0);
    } else {
      ContainsIffOccurs(s[1..], pat);
      if Contains(s[1..], pat) {
        var i :| OccursAt(s[1..], pat, i);
        assert s[1..][i..i + |pat|] == s[i + 1..i + 1 + |pat|];
        assert OccursAt(s, pat, i + 1);
      } else {
        forall i | OccursAt(s, pat, i)
          ensures false
        {
          if i > 0 {
            assert s[1..][i - 1..i - 1 + |pat|] == s[i..i + |pat|];
            assert OccursAt(s[1..], pat, i - 1);
          }
        }
      }
    }
  }

  /** The dispatch loop's first test: a text result naming the unknown protocol. */
  predicate IsUnknownProtocol(p: Parsed)
  {
    match p
    case Text(text) => Contains(text, UnknownProtocolMarker)
    case Decoded(_) => false
  }
}
