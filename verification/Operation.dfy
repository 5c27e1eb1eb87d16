/** The operation attribute of an edit node. */
module Operation {
  import opened Xml

  /** Operations, with the default operation "none" as the one that changes nothing. */
  datatype Op = NotSet | MergeOp | ReplaceOp | CreateOp | DeleteOp | RemoveOp | NoneOp | BadOp

  datatype DefOp = DefNotSet | DefMerge | DefReplace | DefNone

  const OPERATION := "operation"
  const INSERT := "insert"

  function ParseOp(s: string): Op {
    if s == "merge" then MergeOp
    else if s == "replace" then ReplaceOp
    else if s == "create" then CreateOp
    else if s == "delete" then DeleteOp
    else if s == "remove" then RemoveOp
    else BadOp
  }

  /** The operation a node carries itself. */
  function OwnOp(n: Node): Op {
    match n
    case Text(_) => NotSet
    case Element(_, attrs, _) => if OPERATION in attrs then ParseOp(attrs[OPERATION]) else NotSet
  }

  function StripOp(n: Node): Node {
    match n
    case Text(_) => n
    case Element(_, attrs, _) => n.(attrs := attrs - {OPERATION})
  }

  /** What a default operation means. */
  function Meaning(d: DefOp): Op {
    match d
    case DefNotSet => MergeOp
    case DefMerge => MergeOp
    case DefReplace => ReplaceOp
    case DefNone => NoneOp
  }

  /** The default operation cast to an operation by its number: "none" has the number of
      "create". */
  function Cast(d: DefOp): Op {
    match d
    case DefNotSet => NotSet
    case DefMerge => MergeOp
    case DefReplace => ReplaceOp
    case DefNone => CreateOp
  }
}
