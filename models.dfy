/**
 * The command model of the mpv IPC client (src/models.rs): the seek and load
 * modes and their wire tokens, the closed set of commands and their rendering
 * into a list of JSON values, the request envelope and the response envelope.
 */
module Models {
  import opened Wrappers

  newtype int64 = x: int | -0x8000_0000_0000_0000 <= x < 0x8000_0000_0000_0000
  newtype uint32 = x: int | 0 <= x < 0x1_0000_0000

  /** The JSON values the command model builds. Every other JSON value (numbers
      other than i64, null, arrays, objects) is only passed through, so it is
      kept as an uninterpreted token. */
  datatype Json =
    | JString(str: string)
    | JI64(num: int64)
    | JBool(flag: bool)
    | JOther(token: nat)

  datatype SeekMode = Relative | Absolute | AbsolutePercent | RelativePercent | Exact | KeyFrames

  datatype LoadMode = Replace | Append | AppendPlay

  /** The `Display` text of a seek mode. */
  function SeekModeToken(m: SeekMode): (t: string)
    ensures ParseSeekMode(t) == Some(m)
  {
    match m
    case Relative => "relative"
    case Absolute => "absolute"
    case AbsolutePercent => "absolute-percent"
    case RelativePercent => "relative-percent"
    case Exact => "exact"
    case KeyFrames => "keyframes"
  }

  /** How the player reads a seek-mode token back; the inverse of SeekModeToken. */
  function ParseSeekMode(t: string): Option<SeekMode>
  {
    if t == "relative" then Some(Relative)
    else if t == "absolute" then Some(Absolute)
    else if t == "absolute-percent" then Some(AbsolutePercent)
    else if t == "relative-percent" then Some(RelativePercent)
    else if t == "exact" then Some(Exact)
    else if t == "keyframes" then Some(KeyFrames)
    else None
  }

  /** The `Display` text of a load mode. */
  function LoadModeToken(m: LoadMode): (t: string)
    ensures ParseLoadMode(t) == Some(m)
  {
    match m
    case Replace => "replace"
    case Append => "append"
    case AppendPlay => "append-play"
  }

  /** How the player reads a load-mode token back; the inverse of LoadModeToken. */
  function ParseLoadMode(t: string): Option<LoadMode>
  {
    if t == "replace" then Some(Replace)
    else if t == "append" then Some(Append)
    else if t == "append-play" then Some(AppendPlay)
    else None
  }

  /** The six seek tokens are pairwise distinct. */
  lemma SeekModeTokensDistinct(a: SeekMode, b: SeekMode)
    ensures SeekModeToken(a) == SeekModeToken(b) <==> a == b
  {
    assert ParseSeekMode(SeekModeToken(a)) == Some(a);
    assert ParseSeekMode(SeekModeToken(b)) == Some(b);
  }

  /** The three load tokens are pairwise distinct. */
  lemma LoadModeTokensDistinct(a: LoadMode, b: LoadMode)
    ensures LoadModeToken(a) == LoadModeToken(b) <==> a == b
  {
    assert ParseLoadMode(LoadModeToken(a)) == Some(a);
    assert ParseLoadMode(LoadModeToken(b)) == Some(b);
  }

  datatype Command =
    | Seek(position: int64, seekMode: SeekMode)
    | LoadFile(path: string, loadMode: LoadMode)
    | LoadList(path: string, loadMode: LoadMode)
    | PlaylistClear
    | Quit(exitCode: int64)
    | Stop
    | SetProperty(name: string, value: Json)
    | GetProperty(name: string)

  /** The command-name token each variant is sent under (the first wire value). */
  function NameToken(cmd: Command): string
  {
    match cmd
    case Seek(_, _) => "seek"
    case LoadFile(_, _) => "loadfile"
    case LoadList(_, _) => "loadlist"
    case PlaylistClear => "playlist-clear"
    case Quit(_) => "quit"
    case Stop => "stop"
    case SetProperty(_, _) => "set_property"
    case GetProperty(_) => "get_property"
  }

  /** The number of wire values each variant renders to: the name and its arguments. */
  function Arity(cmd: Command): nat
  {
    match cmd
    case Seek(_, _) | LoadFile(_, _) | LoadList(_, _) | SetProperty(_, _) => 3
    case Quit(_) | GetProperty(_) => 2
    case PlaylistClear | Stop => 1
  }

  /** `Command::to_command_list`: the name token, then the positional arguments. */
  function ToCommandList(cmd: Command): (r: seq<Json>)
    ensures |r| == Arity(cmd)
    ensures r[0] == JString(NameToken(cmd))
    ensures ParseCommandList(r) == Some(cmd)
  {
    match cmd
    case Seek(seconds, mode) => [JString("seek"), JI64(seconds), JString(SeekModeToken(mode))]
    case LoadFile(path, mode) => [JString("loadfile"), JString(path), JString(LoadModeToken(mode))]
    case LoadList(path, mode) => [JString("loadlist"), JString(path), JString(LoadModeToken(mode))]
    case PlaylistClear => [JString("playlist-clear")]
    case Quit(code) => [JString("quit"), JI64(code)]
    case Stop => [JString("stop")]
    case SetProperty(name, value) => [JString("set_property"), JString(name), value]
    case GetProperty(name) => [JString("get_property"), JString(name)]
  }

  /** How the player interprets a command list; a reference inverse of ToCommandList. */
  function ParseCommandList(list: seq<Json>): Option<Command>
  {
    if |list| == 0 || !list[0].JString? then None
    else
      var name := list[0].str;
      if name == "seek" then
        if |list| == 3 && list[1].JI64? && list[2].JString? then
          match ParseSeekMode(list[2].str)
          case Some(m) => Some(Seek(list[1].num, m))
          case None => None
        else None
      else if name == "loadfile" || name == "loadlist" then
        if |list| == 3 && list[1].JString? && list[2].JString? then
          match ParseLoadMode(list[2].str)
          case Some(m) =>
            if name == "loadfile" then Some(LoadFile(list[1].str, m)) else Some(LoadList(list[1].str, m))
          case None => None
        else None
      else if name == "playlist-clear" then
        if |list| == 1 then Some(PlaylistClear) else None
      else if name == "quit" then
        if |list| == 2 && list[1].JI64? then Some(Quit(list[1].num)) else None
      else if name == "stop" then
        if |list| == 1 then Some(Stop) else None
      else if name == "set_property" then
        if |list| == 3 && list[1].JString? then Some(SetProperty(list[1].str, list[2])) else None
      else if name == "get_property" then
        if |list| == 2 && list[1].JString? then Some(GetProperty(list[1].str)) else None
      else None
  }

  /** Two different commands never render to the same wire list. */
  lemma RenderingInjective(a: Command, b: Command)
    ensures ToCommandList(a) == ToCommandList(b) <==> a == b
  {
    assert ParseCommandList(ToCommandList(a)) == Some(a);
    assert ParseCommandList(ToCommandList(b)) == Some(b);
  }

  /** The eight name tokens are pairwise distinct: two commands share a name token
      exactly when they are the same variant. */
  lemma NameTokensDistinct(a: Command, b: Command)
    ensures NameToken(a) == NameToken(b) <==>
              (a.Seek? && b.Seek?) || (a.LoadFile? && b.LoadFile?) || (a.LoadList? && b.LoadList?)
              || (a.PlaylistClear? && b.PlaylistClear?) || (a.Quit? && b.Quit?) || (a.Stop? && b.Stop?)
              || (a.SetProperty? && b.SetProperty?) || (a.GetProperty? && b.GetProperty?)
  {
  }

  /** Arguments keep their positions and are passed unchanged. */
  lemma RenderArguments(cmd: Command)
    ensures cmd.Seek? ==>
              (ToCommandList(cmd)[1] == JI64(cmd.position) && ToCommandList(cmd)[2] == JString(SeekModeToken(cmd.seekMode)))
    ensures cmd.LoadFile? || cmd.LoadList? ==>
              (ToCommandList(cmd)[1] == JString(cmd.path) && ToCommandList(cmd)[2] == JString(LoadModeToken(cmd.loadMode)))
    ensures cmd.Quit? ==> ToCommandList(cmd)[1] == JI64(cmd.exitCode)
    ensures cmd.SetProperty? ==> (ToCommandList(cmd)[1] == JString(cmd.name) && ToCommandList(cmd)[2] == cmd.value)
    ensures cmd.GetProperty? ==> ToCommandList(cmd)[1] == JString(cmd.name)
  {
  }

  /** The request envelope: the rendered command and a correlation id. */
  datatype Request = Request(command: seq<Json>, requestId: uint32)

  /** `Request::new`; the random id is a parameter. */
  function NewRequest(cmd: Command, id: uint32): (r: Request)
    ensures r.requestId == id
    ensures r.command == ToCommandList(cmd)
    ensures ParseCommandList(r.command) == Some(cmd)
  {
    Request(ToCommandList(cmd), id)
  }

  /** The response envelope: an optional payload and a status text. */
  datatype Response<T> = Response(data: Option<T>, error: string)
  {
    /** `Response::success`: judged by the status text alone. */
    predicate Success()
    {
      error == "success"
    }
  }

  /** Success is decided by the status text only: swapping the payload never changes it,
      and exactly the status "success" is a success. */
  lemma SuccessIgnoresData<T>(r: Response<T>, d: Option<T>)
    ensures Response(d, r.error).Success() == r.Success()
    ensures r.Success() <==> r.error == "success"
  {
  }
}
