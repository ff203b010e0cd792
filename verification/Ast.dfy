/** The abstract syntax tree of a rule file: main branches of stages that may split into named branches. */
module Ast {

  datatype Unirec =
    | DstIp | SrcIp | Bytes | LinkBitField | TimeFirst | TimeLast | Packets
    | DstPort | SrcPort | DirBitField | Protocol | TcpFlags | Tos | Ttl

  function UnirecName(u: Unirec): string {
    match u
    case DstIp => "DST_IP"
    case SrcIp => "SRC_IP"
    case Bytes => "BYTES"
    case LinkBitField => "LINK_BIT_FIELD"
    case TimeFirst => "TIME_FIRST"
    case TimeLast => "TIME_LAST"
    case Packets => "PACKETS"
    case DstPort => "DST_PORT"
    case SrcPort => "SRC_PORT"
    case DirBitField => "DIR_BIT_FIELD"
    case Protocol => "PROTOCOL"
    case TcpFlags => "TCP_FLAGS"
    case Tos => "TOS"
    case Ttl => "TTL"
  }

  datatype WindowType = WActive | WPassive | WGlobal | WMixed

  datatype AggrFunc =
    | ApSum | ApAverage | ApMinimal | ApMaximal | ApFirst | ApLast | ApOr | ApAnd | ApCountDistinct | ApRate

  /** `variable = FUNC(param)`, or the parameterless COUNT. */
  datatype AggrItem = WithParam(variable: string, func: AggrFunc, param: Unirec) | Count(variable: string)

  /** A selected field, a selected variable, or `name = expression` with the expression's operand names in order. */
  datatype SelItem = Keyword(field: Unirec) | Variable(name: string) | Assignment(name: string, operands: seq<string>)

  datatype Stage =
    | Filter(body: string, succ: Succ)
    | Grouper(keys: seq<Unirec>, succ: Succ)
    | Window(kind: WindowType, range: nat, succ: Succ)
    | Aggregator(functions: seq<AggrItem>, succ: Succ)
    | GroupFilter(body: string, succ: Succ)
    | Selector(items: seq<SelItem>)

  /** A stage is followed by one stage or by several named branches. */
  datatype Succ = Then(stage: Stage) | Split(branches: seq<Branch>)

  /** A branch; `nested` are the names of branches that directly wrap the stage inside it, which no visitor
      other than the printer looks at. */
  datatype Branch = Branch(name: string, nested: seq<string>, stage: Stage)

  datatype Main = Main(name: string, body: MainBody)

  datatype MainBody = Pipeline(stage: Stage) | Nested(mains: seq<Main>)

  datatype Kind = Fi | Gr | Wi | Ag | Gf | Se

  function KindOf(s: Stage): Kind {
    match s
    case Filter(_, _) => Fi
    case Grouper(_, _) => Gr
    case Window(_, _, _) => Wi
    case Aggregator(_, _) => Ag
    case GroupFilter(_, _) => Gf
    case Selector(_) => Se
  }

  /** Every split has a first branch, and nested main-branch lists are not empty. */
  predicate WellFormed(s: Stage) {
    s.Selector? || WellFormedSucc(s.succ)
  }

  predicate WellFormedSucc(succ: Succ) {
    match succ
    case Then(s) => WellFormed(s)
    case Split(bs) => bs != [] && forall b :: b in bs ==> WellFormed(b.stage)
  }

  predicate WellFormedMain(m: Main) {
    match m.body
    case Pipeline(s) => WellFormed(s)
    case Nested(ms) => ms != [] && forall n :: n in ms ==> WellFormedMain(n)
  }
}
