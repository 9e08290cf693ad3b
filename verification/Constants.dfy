/** The operation codes and the xids with a meaning of their own. */
module Constants {
  import opened Outcomes
  import opened Bytes

  datatype OpCodes =
    | Connect | Create | Delete | Exists | GetData | SetData | GetAcl | SetAcl | GetChildren | Sync
    | Ping | GetChildren2 | Check | Multi | Create2 | Reconfig | CheckWatches | RemoveWatches
    | CreateContainer | CreateTtl | MultiRead | SetAuth | SetWatches | Sasl | GetEphemerals
    | GetAllChildrenNumber | SetWatches2 | AddWatch | WhoAmI | CreateSession | Close | Error

  function OpCodeNumber(op: OpCodes): i32 {
    match op
    case Connect => 0
    case Create => 1
    case Delete => 2
    case Exists => 3
    case GetData => 4
    case SetData => 5
    case GetAcl => 6
    case SetAcl => 7
    case GetChildren => 8
    case Sync => 9
    case Ping => 11
    case GetChildren2 => 12
    case Check => 13
    case Multi => 14
    case Create2 => 15
    case Reconfig => 16
    case CheckWatches => 17
    case RemoveWatches => 18
    case CreateContainer => 19
    case CreateTtl => 21
    case MultiRead => 22
    case SetAuth => 100
    case SetWatches => 101
    case Sasl => 102
    case GetEphemerals => 103
    case GetAllChildrenNumber => 104
    case SetWatches2 => 105
    case AddWatch => 106
    case WhoAmI => 107
    case CreateSession => -10
    case Close => -11
    case Error => -1
  }

  /** `OpCodes::from_i32`: the opcode with this number, if there is one. */
  function OpCodeOf(n: i32): Option<OpCodes> {
    match n
    case 0 => Some(OpCodes.Connect)
    case 1 => Some(OpCodes.Create)
    case 2 => Some(OpCodes.Delete)
    case 3 => Some(OpCodes.Exists)
    case 4 => Some(OpCodes.GetData)
    case 5 => Some(OpCodes.SetData)
    case 6 => Some(OpCodes.GetAcl)
    case 7 => Some(OpCodes.SetAcl)
    case 8 => Some(OpCodes.GetChildren)
    case 9 => Some(OpCodes.Sync)
    case 11 => Some(OpCodes.Ping)
    case 12 => Some(OpCodes.GetChildren2)
    case 13 => Some(OpCodes.Check)
    case 14 => Some(OpCodes.Multi)
    case 15 => Some(OpCodes.Create2)
    case 16 => Some(OpCodes.Reconfig)
    case 17 => Some(OpCodes.CheckWatches)
    case 18 => Some(OpCodes.RemoveWatches)
    case 19 => Some(OpCodes.CreateContainer)
    case 21 => Some(OpCodes.CreateTtl)
    case 22 => Some(OpCodes.MultiRead)
    case 100 => Some(OpCodes.SetAuth)
    case 101 => Some(OpCodes.SetWatches)
    case 102 => Some(OpCodes.Sasl)
    case 103 => Some(OpCodes.GetEphemerals)
    case 104 => Some(OpCodes.GetAllChildrenNumber)
    case 105 => Some(OpCodes.SetWatches2)
    case 106 => Some(OpCodes.AddWatch)
    case 107 => Some(OpCodes.WhoAmI)
    case -10 => Some(OpCodes.CreateSession)
    case -11 => Some(OpCodes.Close)
    case -1 => Some(OpCodes.Error)
    case _ => None
  }

  /** A number stands for an opcode exactly when it is that opcode's number. */
  lemma OpCodeOfNumber(n: i32, op: OpCodes)
    ensures OpCodeOf(n) == Some(op) <==> OpCodeNumber(op) == n
  {
  }

  datatype XidCodes = ConnectXid | WatchXid | PingXid | AuthXid | SetWatchesXid

  function XidCodeOf(xid: i32): Option<XidCodes> {
    match xid
    case 0 => Some(ConnectXid)
    case -1 => Some(WatchXid)
    case -2 => Some(PingXid)
    case -4 => Some(AuthXid)
    case -8 => Some(SetWatchesXid)
    case _ => None
  }

  function XidNumber(code: XidCodes): i32 {
    match code
    case ConnectXid => 0
    case WatchXid => -1
    case PingXid => -2
    case AuthXid => -4
    case SetWatchesXid => -8
  }

  /** An xid is special exactly when it is the number of a special xid. */
  lemma XidCodeOfNumber(xid: i32, code: XidCodes)
    ensures XidCodeOf(xid) == Some(code) <==> XidNumber(code) == xid
  {
  }

  /** An xid that names a request of the client's own. */
  predicate Ordinary(xid: i32) {
    XidCodeOf(xid).None?
  }
}
