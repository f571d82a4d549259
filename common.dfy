/** Shared vocabulary of the handler framework: optional and nullable values,
 *  the value an operation throws, the platform client the handlers hold, and
 *  the first-match scan (`Array.prototype.find`) every registry is built on. */
module Common {

  /** A JavaScript value that may be `undefined`. */
  datatype Option<+T> = None | Some(value: T) {
    function GetOr(default: T): T {
      match this
      case Some(v) => v
      case None => default
    }
  }

  /** A JavaScript value that is either explicitly `null` or present. */
  datatype Nullable<+T> = Null | NonNull(value: T)

  datatype Result<+R, +E> = Success(value: R) | Failure(error: E)

  /** What an operation throws at its caller. */
  datatype Thrown =
    | Error(message: string)      // `throw new Error(message)`
    | TypeError(property: string) // reading `property` of an unset (undefined) client

  /** The application object a ready client exposes. */
  datatype Application = Application(id: string)

  datatype ListenMode = On | Once

  /** A subscription made with `client.on(eventName, …)` or `client.once(eventName, …)`. */
  datatype Listener = Listener(eventName: string, mode: ListenMode)

  /** The platform client (a discord.js `Client`), reduced to what the handlers
   *  read and change: its `application`, which appears once the client is
   *  ready, and the listeners subscribed on it. */
  class Client {
    var application: Option<Application>
    var listeners: seq<Listener>

    constructor (application: Option<Application>)
      ensures this.application == application && listeners == []
    {
      this.application := application;
      listeners := [];
    }
  }

  /** The fields of a default-exported instance that a shape check reads
   *  before a directory entry is registered. */
  datatype Candidate = Candidate(name: Option<string>, description: Option<string>, hasRun: bool)

  /** `i` is the first index of `s` whose element satisfies `p`: the element
   *  `s.find(p)` picks. */
  ghost predicate IsFirst<T>(s: seq<T>, p: T -> bool, i: int) {
    0 <= i < |s| && p(s[i]) && forall j :: 0 <= j < i ==> !p(s[j])
  }

  /** The index of the first element of `s` satisfying `p`, as `s.find(p)` picks it. */
  function FindIndex<T>(s: seq<T>, p: T -> bool): (r: Option<nat>)
    ensures r.Some? ==> r.value < |s| && p(s[r.value])
    ensures r.Some? ==> forall j :: 0 <= j < r.value ==> !p(s[j])
    ensures r.None? <==> forall j :: 0 <= j < |s| ==> !p(s[j])
  {
    if |s| == 0 then None
    else if p(s[0]) then Some(0)
    else
      match FindIndex(s[1..], p)
      case None => None
      case Some(k) => Some(k + 1)
  }

  /** Decimal rendering of a natural number, as a template literal prints it. */
  function NatToString(n: nat): string
    decreases n
  {
    var digit := [(('0' as int) + n % 10) as char];
    if n < 10 then digit else NatToString(n / 10) + digit
  }
}
