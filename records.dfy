/** The positional lists the program passes between its stages, as datatypes. */
module Records {

  /** SID_NAME_USE value of a user account (w32.py keeps the type LookupAccountSid returns). */
  const UserKind: int := 1

  /** SID_NAME_USE value of a group; `second_pass_resolve` tags its records with it. */
  const GroupKind: int := 2

  /** `[sid, binsid, name, domain, type]`: a SID that LookupAccountSid resolved. The binary
      SID is never inspected and is carried as bytes. */
  datatype Account = Account(sid: string, binSid: seq<bv8>, name: string, domain: string, kind: int)

  /** One entry of `w32.resolve_sids`: `[sid, binsid, False]` when the lookup failed,
      `[sid, binsid, name, domain, type]` when it succeeded. */
  datatype SidRecord = Unresolved(sid: string, binSid: seq<bv8>) | Resolved(account: Account)
  {
    function Sid(): string
    {
      match this
      case Unresolved(s, _) => s
      case Resolved(a) => a.sid
    }

    function BinSid(): seq<bv8>
    {
      match this
      case Unresolved(_, b) => b
      case Resolved(a) => a.binSid
    }
  }

  /** An account record that correlation extends in place: Python index 5 onwards is `ext`.
      Users get `[full_name, target_full_name, target_name, target_sid]`, groups
      `[target_name, target_sid]`. */
  datatype Correlated = Correlated(account: Account, ext: seq<string>)

  /** One account of `NetUserEnum` level 2 as the matcher reads it. */
  datatype CatalogUser = CatalogUser(name: string, fullName: string)
}
