/**
 * The message handler: the route commands, executed against the route
 * manager; the general commands, behind the rate limiter and counted in the
 * statistics; and the routing between them.
 *
 * What is sent back is modelled as the kind of reply and the data it is
 * built from, not its text. The delays, the readiness wait and the chat and
 * contact lookups are replaced by parameters.
 */
module Bot {
  import opened Wrappers
  import opened Text
  import opened Routes
  import opened Registry
  import opened Usage
  import opened Commands

  /** The reply of the route command handler. */
  datatype RotasReply =
    | HelpText                                                   // the route commands' help
    | Listing(text: string)                                      // `listarTodasRotas`
    | RouteInfo(route: Option<Record>)                           // one route, or "not found"
    | Matches(column: string, query: string, routes: seq<Record>) // a search; none found when empty
    | NoPermission
    | AddFormat
    | UpdateFormat
    | BadField
    | Result(outcome: Outcome)                                   // the manager's message
    | NoReply

  /** The reply to a route command that only reads the registry. */
  function QueryReply(c: RotasCommand, routes: seq<Record>): RotasReply
    requires !c.Add? && !c.Update?
  {
    match c
    case Help => HelpText
    case ListRoutes => Listing(ListAll(routes))
    case ByNumber(key) => RouteInfo(FindByNumber(routes, key))
    case ByDriver(name) => Matches(Driver, name, FindByDriver(routes, name))
    case ByMonitor(name) => Matches(Monitor, name, FindByMonitor(routes, name))
    case ByCompany(name) => Matches(Company, name, FindByCompany(routes, name))
    case Denied => NoPermission
    case AddFormatError => AddFormat
    case UpdateFormatError => UpdateFormat
    case InvalidField => BadField
    case NoCommand => NoReply
  }

  /**
   * What `processRotasCommand` did to the registry, between the state before
   * and after: a query answers from the old routes and changes nothing; an
   * add is refused as a duplicate, or appends the route and keeps it exactly
   * when the write succeeds; an update of an unknown number changes nothing,
   * otherwise it patches the first matching route and keeps the patch exactly
   * when the write succeeds. The columns never change.
   */
  twostate predicate RotasDone(body: string, from: string, writeOk: bool, registry: RouteRegistry, reply: RotasReply)
    reads registry
  {
    var c := ParseRotas(body, from);
    var routes := old(registry.routes);
    registry.headers == old(registry.headers)
    && if c.Add? then
         if IsDuplicate(routes, c.record) then
           reply == Result(Duplicate) && registry.routes == routes
         else if writeOk then
           reply == Result(Added) && registry.routes == routes + [c.record]
         else
           reply == Result(SaveFailed) && registry.routes == routes
       else if c.Update? then
         match FindIndex(routes, c.key)
         case None => reply == Result(NotFound) && registry.routes == routes
         case Some(i) =>
           if writeOk then
             reply == Result(Updated)
             && registry.routes == routes[i := Patched(routes[i], map[c.field := c.value], registry.headers)]
           else
             reply == Result(SaveFailed) && registry.routes == routes
       else
         reply == QueryReply(c, routes) && registry.routes == routes
  }

  /**
   * `processRotasCommand`: queries leave the registry alone; "!addrota" adds
   * the parsed route (it cannot throw, since the parsed route always has a
   * route number); "!updrota" updates one field. Only an administrator's
   * message can change the registry.
   */
  method RunRotas(registry: RouteRegistry, body: string, from: string, writeOk: bool) returns (reply: RotasReply)
    modifies registry
    ensures RotasDone(body, from, writeOk, registry, reply)
    ensures var c := ParseRotas(body, from);
            c.Add? ==> reply.Result?
                       && (reply.outcome == Duplicate <==> IsDuplicate(old(registry.routes), c.record))
                       && (!IsDuplicate(old(registry.routes), c.record) ==> (reply.outcome.Added? <==> writeOk))
                       && (reply.outcome.Added? ==> registry.routes == old(registry.routes) + [c.record])
                       && (!reply.outcome.Added? ==> registry.routes == old(registry.routes))
    ensures var c := ParseRotas(body, from);
            c.Update? ==> reply.Result? && |registry.routes| == |old(registry.routes)|
    ensures !IsAdmin(from) ==> registry.routes == old(registry.routes)
  {
    var c := ParseRotas(body, from);
    match c {
      case Add(record) =>
        var outcome, _ := registry.AddRoute(record, writeOk);
        reply := Result(outcome);
      case Update(key, field, value) =>
        var outcome, _ := registry.UpdateRoute(key, map[field := value], writeOk);
        reply := Result(outcome);
      case _ =>
        reply := QueryReply(c, registry.routes);
    }
  }

  /** The reply of the general command handler. */
  datatype GeneralReply =
    | Ignored                  // no prefix, or nothing after it: nothing happens
    | Wait(seconds: int)       // refused by the rate limiter
    | MentionAllInvisible      // "@"
    | MentionAllVisible        // "todosvisiveis"
    | ShowHelp                 // "ajuda"
    | ShowStats                // "estatisticas"
    | Unrecognized             // any other command

  /** The `switch` on the normalised command. */
  function CommandReply(cmd: string): (g: GeneralReply)
    ensures g != Ignored && !g.Wait?
    ensures g == Unrecognized <==> cmd !in ["@", "todosvisiveis", "ajuda", "estatisticas"]
  {
    if cmd == "@" then MentionAllInvisible
    else if cmd == "todosvisiveis" then MentionAllVisible
    else if cmd == "ajuda" then ShowHelp
    else if cmd == "estatisticas" then ShowStats
    else Unrecognized
  }

  /**
   * The command `processCommand` goes on with: the normalised text, unless
   * there is none or it is empty (the `!normalizedCmd` test also stops "").
   */
  function GeneralCommand(body: string): Option<string> {
    match NormalizeCommand(body)
    case None => None
    case Some(cmd) => if cmd == "" then None else Some(cmd)
  }

  /** A bare prefix, with or without blanks after it, is not a command. */
  lemma BarePrefixIgnored(blanks: string)
    requires IsBlank(blanks)
    ensures GeneralCommand(CommandPrefix + blanks).None?
  {
    var body := CommandPrefix + blanks;
    assert body[|CommandPrefix|..] == blanks;
    TrimEmpty(blanks);
  }

  /**
   * What `processCommand` did with a command `cmd`, between the state before
   * and after: for a refused one, the wait, read on the later clock reading
   * `nowAfter`, and nothing counted; for an allowed one, the new stamp, the
   * command counted once in total, once under its name and once for the
   * sender (created with the given name when new), and the command's reply.
   */
  twostate predicate CommandDone(cmd: string, senderId: string, senderName: string, now: int, nowAfter: int,
                                 limiter: RateLimiter, stats: CommandStats, reply: GeneralReply)
    reads limiter, stats
  {
    var key := RateKey(senderId, cmd);
    if Allowed(old(limiter.last), key, now) then
      limiter.last == old(limiter.last)[key := now]
      && reply == CommandReply(cmd)
      && stats.total == old(stats.total) + 1
      && stats.byType == old(stats.byType)[cmd := Count(old(stats.byType), cmd) + 1]
      && var e := UserEntry(old(stats.users), senderId, senderName);
         stats.users == old(stats.users)[senderId := e.(count := e.count + 1, lastCommand := Some(cmd))]
    else
      limiter.last == old(limiter.last)
      && unchanged(stats)
      && reply == Wait(WaitSeconds(nowAfter, old(limiter.last)[key]))
  }

  /** What `processCommand` did: nothing for a text that is no command, otherwise `CommandDone`. */
  twostate predicate GeneralDone(body: string, senderId: string, senderName: string, now: int, nowAfter: int,
                                 limiter: RateLimiter, stats: CommandStats, reply: GeneralReply)
    reads limiter, stats
  {
    match GeneralCommand(body)
    case None => reply == Ignored && limiter.last == old(limiter.last) && unchanged(stats)
    case Some(cmd) => CommandDone(cmd, senderId, senderName, now, nowAfter, limiter, stats, reply)
  }

  /** The part of `processCommand` after normalisation: the rate limit, the counting and the reply. */
  method RunCommand(cmd: string, senderId: string, senderName: string, now: int, nowAfter: int,
                    limiter: RateLimiter, stats: CommandStats) returns (reply: GeneralReply)
    requires stats.Valid()
    modifies limiter, stats
    ensures stats.Valid()
    ensures CommandDone(cmd, senderId, senderName, now, nowAfter, limiter, stats, reply)
  {
    var allowed := limiter.Check(senderId, cmd, now);
    if !allowed {
      reply := Wait(WaitSeconds(nowAfter, limiter.last[RateKey(senderId, cmd)]));
    } else {
      stats.Update(senderId, cmd, senderName);
      reply := CommandReply(cmd);
    }
  }

  /**
   * `processCommand`: a text without a command is ignored; a refused command
   * gets the wait and counts nothing; an allowed one is counted for the
   * sender, then answered.
   */
  method ProcessCommand(body: string, senderId: string, senderName: string, now: int, nowAfter: int,
                        limiter: RateLimiter, stats: CommandStats) returns (reply: GeneralReply)
    requires stats.Valid()
    modifies limiter, stats
    ensures stats.Valid()
    ensures GeneralDone(body, senderId, senderName, now, nowAfter, limiter, stats, reply)
  {
    var normalized := GeneralCommand(body);
    if normalized.None? {
      return Ignored;
    }
    reply := RunCommand(normalized.value, senderId, senderName, now, nowAfter, limiter, stats);
  }

  // ------------------------------------------------------ auto-responses

  /** What `processAutoResponse` sends to a private plain-text message. */
  datatype AutoReply =
    | Greeting      // the text holds "oi", "olá" or "ola"
    | AutoHelp      // otherwise, it holds "ajuda" or "help": the help text
    | HowToUse      // otherwise, it holds "como usar" or "como funciona"
    | NoAutoReply   // anything else: nothing is sent

  /** `processAutoResponse`: the first keyword group found in the lower-cased, trimmed text wins. */
  function AutoReplyFor(body: string): AutoReply {
    var t := Trim(Lower(body));
    if Contains(t, "oi") || Contains(t, "olá") || Contains(t, "ola") then Greeting
    else if Contains(t, "ajuda") || Contains(t, "help") then AutoHelp
    else if Contains(t, "como usar") || Contains(t, "como funciona") then HowToUse
    else NoAutoReply
  }

  /**
   * The keywords are searched anywhere in the text, and the greeting is
   * tested first: any text holding "oi", whatever surrounds it (even a help
   * request), is answered with the greeting.
   */
  lemma GreetingWins(before: string, after: string)
    ensures AutoReplyFor(before + "oi" + after) == Greeting
  {
    var oi := "oi";
    assert HasNoUpper(oi);
    LowerConcat(before + oi, after);
    LowerConcat(before, oi);
    LowerKeeps(oi);
    var low := Lower(before + oi + after);
    assert low == Lower(before) + oi + Lower(after);
    assert low[|Lower(before)|..|Lower(before)| + 2] == oi;
    ContainsAt(low, oi, |Lower(before)|);
    ContainsTrim(low, oi);
  }

  /** So "boa noite" is greeted: "noite" holds "oi". */
  lemma GoodNightGreeted()
    ensures AutoReplyFor("boa noite") == Greeting
  {
    assert "boa n" + "oi" + "te" == "boa noite";
    GreetingWins("boa n", "te");
  }

  // ------------------------------------------------------------- messages

  /** What the handler does with one message. */
  datatype Reply =
    | Silent
    | Rotas(rotas: RotasReply)
    | General(general: GeneralReply)
    | Auto(auto: AutoReply)        // a private plain-text message, handed to the auto-responder

  /**
   * The message handler: nothing before the client is ready, for the bot's
   * own messages or for status broadcasts; route commands go straight to the
   * route handler, with no rate limit and no statistics; other texts with the
   * prefix to the general handler; plain text to the auto-responder in
   * private chats only.
   */
  method HandleMessage(body: string, fromMe: bool, from: string, senderId: string, senderName: string,
                       isGroup: bool, ready: bool, now: int, nowAfter: int, writeOk: bool,
                       registry: RouteRegistry, limiter: RateLimiter, stats: CommandStats) returns (reply: Reply)
    requires stats.Valid()
    modifies registry, limiter, stats
    ensures stats.Valid()
    ensures registry.headers == old(registry.headers)
    ensures !ready || fromMe || from == "status@broadcast" ==>
              reply == Silent && unchanged(registry) && unchanged(limiter) && unchanged(stats)
    ensures ready && !fromMe && from != "status@broadcast" && RouteOf(body) == RotasHandler ==>
              reply.Rotas? && RotasDone(body, from, writeOk, registry, reply.rotas)
              && unchanged(limiter) && unchanged(stats)
    ensures RouteOf(body) != RotasHandler ==> unchanged(registry)
    ensures ready && !fromMe && from != "status@broadcast" && RouteOf(body) == GeneralHandler ==>
              reply.General? && GeneralDone(body, senderId, senderName, now, nowAfter, limiter, stats, reply.general)
    ensures ready && !fromMe && from != "status@broadcast" && RouteOf(body) == PlainText ==>
              reply == (if isGroup then Silent else Auto(AutoReplyFor(body))) && unchanged(limiter) && unchanged(stats)
  {
    if !ready || fromMe || from == "status@broadcast" {
      return Silent;
    }
    var route := RouteOf(body);
    if route == RotasHandler {
      var r := RunRotas(registry, body, from, writeOk);
      return Rotas(r);
    }
    if route == GeneralHandler {
      var g := ProcessCommand(body, senderId, senderName, now, nowAfter, limiter, stats);
      return General(g);
    }
    reply := if isGroup then Silent else Auto(AutoReplyFor(body));
  }

  /**
   * A route command is never rate-limited: the same "!rotas" sent twice in
   * the same millisecond is answered both times, with the limiter and the
   * statistics untouched.
   */
  method RotasTwiceUnlimited(registry: RouteRegistry, limiter: RateLimiter, stats: CommandStats, from: string, now: int)
    requires stats.Valid()
    requires from != "status@broadcast"
    modifies registry, limiter, stats
    ensures unchanged(limiter) && unchanged(stats)
  {
    TrimOfTrimmed("!rotas");
    assert StartsWith("!rotas", "!rotas");
    var first := HandleMessage("!rotas", false, from, from, "", false, true, now, now, true, registry, limiter, stats);
    var second := HandleMessage("!rotas", false, from, from, "", false, true, now, now, true, registry, limiter, stats);
    assert first.Rotas? && second.Rotas?;
  }
}
