/** How a chain query about one contract is classified. */
module DealState {
  import opened Wrappers

  datatype Status = Verified | NotVerified | NotFound | QueryError

  /** The reply to a query for an active deal: the text of its verification
      flag, a status error of the remote call, or some other error. */
  datatype Reply = Deal(proofVerified: string) | NotFoundCode | OtherCode | UnknownError

  /** strconv.ParseBool. */
  function ParseBool(s: string): Option<bool> {
    if s in ["1", "t", "T", "TRUE", "true", "True"] then Some(true)
    else if s in ["0", "f", "F", "FALSE", "false", "False"] then Some(false)
    else None
  }

  /** Only the chain's own not-found code counts against a contract; a flag that
      cannot be read, like every other failure, says nothing about it. */
  function ContractState(reply: Reply): (status: Status)
    ensures status == NotFound <==> reply == NotFoundCode
    ensures status == Verified <==> exists v :: reply == Deal(v) && ParseBool(v) == Some(true)
    ensures status == NotVerified <==> exists v :: reply == Deal(v) && ParseBool(v) == Some(false)
  {
    match reply
    case UnknownError => QueryError
    case NotFoundCode => NotFound
    case OtherCode => QueryError
    case Deal(flag) =>
      match ParseBool(flag)
      case None => QueryError
      case Some(verified) => if verified then Verified else NotVerified
  }

  /** The flag texts that mean yes and no; every other text is a failed query. */
  lemma FlagTexts(flag: string)
    ensures ContractState(Deal(flag)) ==
            if flag == "1" || flag == "t" || flag == "T" || flag == "TRUE" || flag == "true" || flag == "True"
            then Verified
            else if flag == "0" || flag == "f" || flag == "F" || flag == "FALSE" || flag == "false" || flag == "False"
            then NotVerified
            else QueryError
  {
  }

  /** What the chain writes for a truth value is read back as that value. */
  lemma FormattedFlags(verified: bool)
    ensures ContractState(Deal(if verified then "true" else "false")) == if verified then Verified else NotVerified
  {
    FlagTexts(if verified then "true" else "false");
  }
}
