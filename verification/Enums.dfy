/** The protocol's enumerations and their wire text. */
module Enums {
  datatype RRType = NS | TXT | FH | IdCert | DyndnsUpdate | A | AAAA | UnknownType {
    function ToString(): string {
      match this
      case NS => "NS"
      case TXT => "TXT"
      case FH => "FH"
      case A => "A"
      case AAAA => "AAAA"
      case IdCert => "ID-CERT"
      case DyndnsUpdate => "DYNDNSUPDATE"
      case UnknownType => "UNKNOWN"
    }
  }

  function ToRRType(s: string): RRType {
    if s == "NS" then NS
    else if s == "TXT" then TXT
    else if s == "FH" then FH
    else if s == "A" then A
    else if s == "AAAA" then AAAA
    else if s == "ID-CERT" then IdCert
    else if s == "DYNDNSUPDATE" then DyndnsUpdate
    else UnknownType
  }

  lemma RRTypeInjective(a: RRType, b: RRType)
    ensures a.ToString() == b.ToString() ==> a == b
  {
    assert ToRRType(a.ToString()) == a && ToRRType(b.ToString()) == b;
  }

  datatype ResponseType = Resp | Nack | Auth | UpdateOk | UpdateFail | UnknownResponse {
    function ToString(): string {
      match this
      case Resp => "NDNS-Resp"
      case Nack => "NDNS-Nack"
      case Auth => "NDNS-Auth"
      case UpdateOk => "DyNDNS-OK"
      case UpdateFail => "DyNDNS-Fail"
      case UnknownResponse => "UNKNOWN"
    }
  }

  function ToResponseType(s: string): ResponseType {
    if s == "NDNS-Resp" then Resp
    else if s == "NDNS-Nack" then Nack
    else if s == "NDNS-Auth" then Auth
    else if s == "DyNDNS-OK" then UpdateOk
    else if s == "DyNDNS-Fail" then UpdateFail
    else UnknownResponse
  }

  datatype QueryType = Dns | DnsR | Key | UnknownQuery {
    function ToString(): string {
      match this
      case Dns => "DNS"
      case DnsR => "DNS-R"
      case Key => "KEY"
      case UnknownQuery => "UNKNOWN"
    }
  }

  function ToQueryType(s: string): QueryType {
    if s == "DNS" then Dns
    else if s == "DNS-R" then DnsR
    else if s == "KEY" then Key
    else UnknownQuery
  }

  /** The steps a resolver's query goes through. */
  datatype QueryStep = NSQuery | RRQuery | FHQuery | AnswerStub | Abort

  datatype UpdateAction = None | Add | Remove | ReplaceAll | Replace | UnknownAction {
    function ToString(): string {
      match this
      case None => "NONE"
      case Add => "ADD"
      case Remove => "REMOVE"
      case ReplaceAll => "REPLACE-ALL"
      case Replace => "REPLACE"
      case UnknownAction => "UNKNOWN"
    }
  }

  function ToUpdateAction(s: string): UpdateAction {
    if s == "NONE" then None
    else if s == "ADD" then Add
    else if s == "REMOVE" then Remove
    else if s == "REPLACE-ALL" then ReplaceAll
    else if s == "REPLACE" then Replace
    else UnknownAction
  }
}
