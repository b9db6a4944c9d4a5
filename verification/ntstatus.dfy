/**
  Translation of the 32-bit NT status carried in an SMB2 response header into
  the symbolic outcome the client returns. Only the two codes the client names
  are symbolic (section 2.3.1 of [MS-ERREF]); every other value is kept raw.
 */
module NtStatus {
  import opened Packets

  const STATUS_SUCCESS: uint32 := 0x0000_0000
  const STATUS_LOGON_FAILURE: uint32 := 0xC000_006D

  datatype Status = StatusSuccess | StatusLogonFailure | Unmapped(code: uint32)

  /** An `Unmapped` status never hides one of the named codes. */
  predicate Valid(s: Status) {
    s.Unmapped? ==> s.code != STATUS_SUCCESS && s.code != STATUS_LOGON_FAILURE
  }

  /** The wire value a status stands for. */
  function Code(s: Status): uint32 {
    match s
    case StatusSuccess => STATUS_SUCCESS
    case StatusLogonFailure => STATUS_LOGON_FAILURE
    case Unmapped(code) => code
  }

  /** Total translation of a wire value: each value gets exactly one outcome,
      and it is a named outcome exactly when the value is that name's code. */
  function Translate(code: uint32): (s: Status)
    ensures Valid(s)
    ensures Code(s) == code
    ensures s == StatusSuccess <==> code == STATUS_SUCCESS
    ensures s == StatusLogonFailure <==> code == STATUS_LOGON_FAILURE
  {
    if code == STATUS_SUCCESS then StatusSuccess
    else if code == STATUS_LOGON_FAILURE then StatusLogonFailure
    else Unmapped(code)
  }

  /** Translating the wire value of a valid status gives that status back. */
  lemma TranslateCode(s: Status)
    requires Valid(s)
    ensures Translate(Code(s)) == s
  {
  }

  /** Distinct wire values are never reported as the same outcome. */
  lemma TranslateInjective(a: uint32, b: uint32)
    requires Translate(a) == Translate(b)
    ensures a == b
  {
  }
}
