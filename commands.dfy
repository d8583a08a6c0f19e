/**
 * Commands: how a message is routed, how a general command is normalised,
 * who is an administrator, and how a route command's text becomes a request
 * to the route manager.
 *
 * The route command handler lower-cases the whole message first, so its
 * arguments (route numbers, names, the fields of a new route) reach the
 * manager in lower case, and the field names of an update can never equal the
 * upper-case column names it accepts.
 */
module Commands {
  import opened Wrappers
  import opened Text
  import opened Routes

  const CommandPrefix := "!"
  const Admins: seq<string> := ["559870275434", "559891506740"]
  const UserSuffix := "@c.us"

  // -------------------------------------------------------- normalisation

  /**
   * `normalizeCommand`: `None` unless the text starts with the prefix;
   * otherwise the rest, trimmed and lower-cased.
   */
  function NormalizeCommand(text: string): (r: Option<string>)
    ensures r.None? <==> !StartsWith(text, CommandPrefix)
    ensures r.Some? ==> HasNoUpper(r.value) && |r.value| < |text|
    ensures r.Some? ==> r.value == [] || (!IsSpace(r.value[0]) && !IsSpace(r.value[|r.value| - 1]))
    ensures r.Some? ==> exists i, j :: 1 <= i <= j <= |text| && r.value == Lower(text[i..j])
                                      && IsBlank(text[1..i]) && IsBlank(text[j..])
  {
    if !StartsWith(text, CommandPrefix) then None
    else
      TrimAfterIsSlice(text, |CommandPrefix|);
      Some(Lower(Trim(text[|CommandPrefix|..])))
  }

  /** A normalised command, written again after the prefix, normalises to itself. */
  lemma NormalizeStable(text: string)
    requires NormalizeCommand(text).Some?
    ensures NormalizeCommand(CommandPrefix + NormalizeCommand(text).value) == NormalizeCommand(text)
  {
    var cmd := NormalizeCommand(text).value;
    var again := CommandPrefix + cmd;
    assert again[|CommandPrefix|..] == cmd;
    TrimOfTrimmed(cmd);
    LowerKeeps(cmd);
  }

  /** A command is only recognised with the prefix at the very start: a leading blank hides it. */
  lemma LeadingBlankHidesCommand(text: string)
    requires text != [] && IsSpace(text[0])
    ensures NormalizeCommand(text).None?
  {
  }

  // ------------------------------------------------------- administrators

  /** `isAdmin`: the id with its first "@c.us" removed is one of the listed numbers. */
  predicate IsAdmin(userId: string) {
    ReplaceFirst(userId, UserSuffix, "") in Admins
  }

  /** An id without '@' is left alone by the suffix removal; with the suffix appended, only the suffix goes. */
  lemma StripSuffix(u: string)
    requires '@' !in u
    ensures ReplaceFirst(u, UserSuffix, "") == u
    ensures ReplaceFirst(u + UserSuffix, UserSuffix, "") == u
  {
    forall j | 0 <= j <= |u|
      ensures !StartsWith(u[j..], UserSuffix)
    {
      if j < |u| {
        assert u[j..][0] == u[j];
      }
    }
    var s := u + UserSuffix;
    assert s[|u|..] == UserSuffix;
    forall j | 0 <= j < |u|
      ensures !StartsWith(s[j..], UserSuffix)
    {
      assert s[j..][0] == u[j];
    }
    var i := IndexOf(s, UserSuffix);
    assert StartsWith(s[|u|..], UserSuffix);
    assert i.Some? && i.value == |u|;
  }

  /**
   * For a user id made of a bare number, with or without the "@c.us"
   * suffix, administrator means exactly: the number is listed.
   */
  lemma AdminIff(number: string)
    requires '@' !in number
    ensures IsAdmin(number) <==> number in Admins
    ensures IsAdmin(number + UserSuffix) <==> number in Admins
  {
    StripSuffix(number);
  }

  /**
   * A chat id that holds an '@' but not "@c.us" — a group's id — is never an
   * administrator, so the route-changing commands, which check the chat's
   * id, are refused in every group.
   */
  lemma GroupIdNeverAdmin(chatId: string)
    requires '@' in chatId
    requires IndexOf(chatId, UserSuffix).None?
    ensures !IsAdmin(chatId)
  {
    assert forall a :: a in Admins ==> '@' !in a;
  }

  // --------------------------------------------------------------- routing

  /** The words that send a message to the route command handler. */
  const RouteWords: seq<string> := ["!rotas", "!rota", "!motorista", "!monitor", "!empresa", "!addrota", "!updrota"]

  /** Where the message handler sends a message. */
  datatype Handler = RotasHandler | GeneralHandler | PlainText

  /**
   * The handler's test, on the trimmed text and case-sensitive: one of the
   * route command words goes to the route handler, any other text with the
   * prefix to the general one.
   */
  function RouteOf(body: string): (h: Handler)
    ensures h.RotasHandler? <==> exists w :: w in RouteWords && StartsWith(Trim(body), w)
    ensures h.GeneralHandler? <==> StartsWith(Trim(body), CommandPrefix) && !h.RotasHandler?
    ensures h.PlainText? <==> !StartsWith(Trim(body), CommandPrefix)
  {
    var t := Trim(body);
    if StartsWith(t, "!") && (StartsWith(t, "!rotas") || StartsWith(t, "!rota")
                              || StartsWith(t, "!motorista") || StartsWith(t, "!monitor")
                              || StartsWith(t, "!empresa") || StartsWith(t, "!addrota")
                              || StartsWith(t, "!updrota"))
    then RotasHandler
    else if StartsWith(t, CommandPrefix) then GeneralHandler
    else PlainText
  }

  /**
   * The route words are matched case-sensitively: "!ROTAS" goes to the
   * general handler, which knows no "rotas" command.
   */
  lemma UpperCaseRotasIsGeneral()
    ensures RouteOf("!ROTAS") == GeneralHandler
    ensures NormalizeCommand("!ROTAS") == Some("rotas")
  {
    TrimOfTrimmed("!ROTAS");
    TrimOfTrimmed("ROTAS");
    assert "!ROTAS"[1..] == "ROTAS";
    assert Lower("ROTAS") == "rotas";
  }

  // -------------------------------------------------- route command parse

  /** The request a route command amounts to. */
  datatype RotasCommand =
    | Help                                                  // "!rotas ajuda"
    | ListRoutes                                            // "!rotas"
    | ByNumber(key: string)                                 // "!rota <n>"
    | ByDriver(name: string)                                // "!motorista <name>"
    | ByMonitor(name: string)                               // "!monitor <name>"
    | ByCompany(name: string)                               // "!empresa <name>"
    | Denied                                                // add or update by a non-administrator
    | AddFormatError                                        // fewer than 11 fields
    | Add(record: Record)                                   // "!addrota f0|f1|...|f10"
    | UpdateFormatError                                     // fewer than 3 fields
    | InvalidField                                          // field not in the accepted list
    | Update(key: string, field: string, value: string)     // "!updrota n|field|value"
    | NoCommand                                             // none of the above: no reply

  /** The columns of a new route, in the order of the fields of "!addrota". */
  const AddColumns: seq<string> :=
    [Bus, RouteNumber, RouteName, Schools, Shift, Monitor, Driver, Company, Distance, Plate, StartDate]

  /** The fields "!updrota" accepts: every column but the route number. */
  const UpdateFields: seq<string> :=
    [Bus, RouteName, Schools, Shift, Monitor, Driver, Company, Distance, Plate, StartDate]

  /** The new route built from the first eleven fields; any further fields are ignored. */
  function RecordOf(fields: seq<string>): (r: Record)
    requires |fields| >= 11
    ensures forall k :: k in r <==> k in AddColumns
    ensures forall i :: 0 <= i < 11 ==> r[AddColumns[i]] == fields[i]
  {
    map[Bus := fields[0], RouteNumber := fields[1], RouteName := fields[2], Schools := fields[3],
        Shift := fields[4], Monitor := fields[5], Driver := fields[6], Company := fields[7],
        Distance := fields[8], Plate := fields[9], StartDate := fields[10]]
  }

  /** `text.split(' ')[1]`: the second space-separated word. */
  function SecondWord(text: string): string
    requires ' ' in text
  {
    SplitHasTwo(text, ' ');
    Split(text, ' ')[1]
  }

  /** `text.split(' ').slice(1).join(' ')`: everything after the first space. */
  function AfterFirstWord(text: string): string {
    Join(Split(text, ' ')[1..], ' ')
  }

  /**
   * `processRotasCommand`, up to the call into the route manager. Adding and
   * updating need an administrator; the new route's fields and the update's
   * field name are read from the lower-cased text.
   */
  function ParseRotas(body: string, from: string): (c: RotasCommand)
    ensures (c.Add? || c.Update?) ==> IsAdmin(from)
    ensures c.Add? ==> RouteNumber in c.record
    ensures c.Add? ==> forall k :: k in c.record ==> HasNoUpper(c.record[k])
  {
    var text := Lower(body);
    if text == "!rotas ajuda" then Help
    else if text == "!rotas" then ListRoutes
    else if StartsWith(text, "!rota ") then
      assert text[5] == ' ';
      ByNumber(SecondWord(text))
    else if StartsWith(text, "!motorista ") then ByDriver(AfterFirstWord(text))
    else if StartsWith(text, "!monitor ") then ByMonitor(AfterFirstWord(text))
    else if StartsWith(text, "!empresa ") then ByCompany(AfterFirstWord(text))
    else if StartsWith(text, "!addrota ") then ParseAdd(text, from)
    else if StartsWith(text, "!updrota ") then ParseUpdate(text, from)
    else NoCommand
  }

  /** The "!addrota " branch, on the lower-cased text. */
  function ParseAdd(text: string, from: string): (c: RotasCommand)
    requires HasNoUpper(text)
    ensures c.Denied? || c.AddFormatError? || c.Add?
    ensures c.Add? ==> IsAdmin(from) && RouteNumber in c.record
    ensures c.Add? ==> forall k :: k in c.record ==> HasNoUpper(c.record[k])
  {
    if !IsAdmin(from) then Denied
    else
      var fields := Split(ReplaceFirst(text, "!addrota ", ""), '|');
      if |fields| < 11 then AddFormatError
      else
        ReplaceNoUpper(text, "!addrota ");
        PartsHaveNoUpper(ReplaceFirst(text, "!addrota ", ""), '|');
        Add(RecordOf(fields))
  }

  /** The "!updrota " branch, on the lower-cased text. */
  function ParseUpdate(text: string, from: string): (c: RotasCommand)
    ensures c.Denied? || c.UpdateFormatError? || c.InvalidField? || c.Update?
    ensures c.Update? ==> IsAdmin(from)
  {
    if !IsAdmin(from) then Denied
    else
      var fields := Split(ReplaceFirst(text, "!updrota ", ""), '|');
      if |fields| < 3 then UpdateFormatError
      else if fields[1] !in UpdateFields then InvalidField
      else Update(fields[0], fields[1], Join(fields[2..], '|'))
  }

  /** A string holding the separator splits into at least two pieces. */
  lemma SplitHasTwo(s: string, c: char)
    requires c in s
    ensures |Split(s, c)| >= 2
  {
    if |Split(s, c)| == 1 {
      JoinSplit(s, c);
    }
  }

  /** `replace` never adds an upper-case letter when neither the text nor the replacement has one. */
  lemma ReplaceNoUpper(s: string, pat: string)
    requires HasNoUpper(s)
    ensures HasNoUpper(ReplaceFirst(s, pat, ""))
  {
  }

  /** The pieces of a split string without upper-case letters have none either. */
  lemma PartsHaveNoUpper(s: string, c: char)
    requires HasNoUpper(s)
    ensures forall k :: 0 <= k < |Split(s, c)| ==> HasNoUpper(Split(s, c)[k])
  {
    SplitChars(s, c);
    forall k, i | 0 <= k < |Split(s, c)| && 0 <= i < |Split(s, c)[k]|
      ensures !IsUpperAscii(Split(s, c)[k][i])
    {
      var ch := Split(s, c)[k][i];
      var j :| 0 <= j < |s| && s[j] == ch;
    }
  }

  /** Every accepted update field holds an upper-case letter. */
  lemma UpdateFieldsHaveUpper()
    ensures forall f :: f in UpdateFields ==> !HasNoUpper(f)
  {
    assert IsUpperAscii(Bus[1]) && IsUpperAscii(RouteName[0]) && IsUpperAscii(Schools[0]) && IsUpperAscii(Shift[0]);
    assert IsUpperAscii(Monitor[0]) && IsUpperAscii(Driver[0]) && IsUpperAscii(Company[0]);
    assert IsUpperAscii(Distance[0]) && IsUpperAscii(Plate[0]) && IsUpperAscii(StartDate[0]);
  }

  /**
   * "!updrota" never reaches the route manager: its field name comes from the
   * lower-cased text and so never equals an accepted (upper-case) field.
   */
  lemma UpdateNeverParsed(body: string, from: string)
    ensures !ParseRotas(body, from).Update?
  {
    var text := Lower(body);
    if StartsWith(text, "!updrota ") {
      CommandWordsDiffer(text, "!updrota ");
      UpdateNeverParsedLower(text, from);
    }
  }

  /** The same, for the update branch on a text without upper-case letters. */
  lemma UpdateNeverParsedLower(text: string, from: string)
    requires HasNoUpper(text)
    ensures !ParseUpdate(text, from).Update?
  {
    if IsAdmin(from) {
      var rest := ReplaceFirst(text, "!updrota ", "");
      ReplaceNoUpper(text, "!updrota ");
      PartsHaveNoUpper(rest, '|');
      var fields := Split(rest, '|');
      if |fields| >= 3 {
        UpdateFieldsHaveUpper();
        assert HasNoUpper(fields[1]);
      }
    }
  }

  // ------------------------------------------------------------ arguments

  /** The command words are already lower case. */
  lemma WordsAreLower()
    ensures HasNoUpper("!rota ") && HasNoUpper("!rota  ") && HasNoUpper("!addrota ")
    ensures HasNoUpper("!motorista ") && HasNoUpper("!monitor ") && HasNoUpper("!empresa ")
    ensures HasNoUpper("!motorista") && HasNoUpper("!monitor") && HasNoUpper("!empresa")
  {
  }

  /** The lower case of a command word followed by an argument. */
  lemma LowerAfterWord(word: string, arg: string)
    requires HasNoUpper(word)
    ensures Lower(word + arg) == word + Lower(arg)
  {
    LowerConcat(word, arg);
    LowerKeeps(word);
  }

  /** A space-free word, a space and the rest split into the word and the pieces of the rest. */
  lemma SplitAfterWord(word: string, rest: string)
    requires ' ' !in word
    ensures Split(word + " " + rest, ' ') == [word] + Split(rest, ' ')
  {
    SplitCons(word, ' ', rest);
  }

  /**
   * "!rota <key>": the key reaches the lookup lower-cased, and a key without
   * spaces is taken whole.
   */
  lemma RouteKeyArgument(key: string, from: string)
    requires ' ' !in key
    ensures ParseRotas("!rota " + key, from) == ByNumber(Lower(key))
  {
    WordsAreLower();
    var text := Lower("!rota " + key);
    LowerAfterWord("!rota ", key);
    assert text == "!rota" + " " + Lower(key);
    assert text[5] == ' ';
    SplitAfterWord("!rota", Lower(key));
    LowerKeepsChar(key, ' ');
    SplitNoSeparator(Lower(key), ' ');
  }

  /**
   * Two spaces after "!rota" make the key the empty word between them, which
   * no route matches: the lookup always answers "not found".
   */
  lemma DoubleSpaceKey(rest: string, from: string, routes: seq<Record>)
    ensures ParseRotas("!rota  " + rest, from) == ByNumber("")
    ensures FindByNumber(routes, "").None?
  {
    WordsAreLower();
    var text := Lower("!rota  " + rest);
    LowerAfterWord("!rota  ", rest);
    assert text == "!rota" + " " + (" " + Lower(rest));
    assert text[5] == ' ';
    SplitAfterWord("!rota", " " + Lower(rest));
    SplitCons("", ' ', Lower(rest));
    assert "" + [' '] + Lower(rest) == " " + Lower(rest);
    EmptyKeyFindsNothing(routes);
  }

  /** "!motorista" passes everything after the first space, lower-cased, as the query. */
  lemma DriverArgument(query: string, from: string)
    ensures ParseRotas("!motorista " + query, from) == ByDriver(Lower(query))
  {
    var text := Lower("!motorista " + query);
    WordsAreLower();
    LowerAfterWord("!motorista ", query);
    assert StartsWith(text, "!motorista ");
    DifferAt(text, "!motorista ", "!rotas ajuda", 1);
    DifferAt(text, "!motorista ", "!rotas", 1);
    DifferAt(text, "!motorista ", "!rota ", 1);
    assert "!motorista" + " " == "!motorista ";
    RestAfterWord("!motorista", query);
  }

  /** "!monitor" passes everything after the first space, lower-cased, as the query. */
  lemma MonitorArgument(query: string, from: string)
    ensures ParseRotas("!monitor " + query, from) == ByMonitor(Lower(query))
  {
    var text := Lower("!monitor " + query);
    WordsAreLower();
    LowerAfterWord("!monitor ", query);
    assert StartsWith(text, "!monitor ");
    DifferAt(text, "!monitor ", "!rotas ajuda", 1);
    DifferAt(text, "!monitor ", "!rotas", 1);
    DifferAt(text, "!monitor ", "!rota ", 1);
    DifferAt(text, "!monitor ", "!motorista ", 3);
    assert "!monitor" + " " == "!monitor ";
    RestAfterWord("!monitor", query);
  }

  /** "!empresa" passes everything after the first space, lower-cased, as the query. */
  lemma CompanyArgument(query: string, from: string)
    ensures ParseRotas("!empresa " + query, from) == ByCompany(Lower(query))
  {
    var text := Lower("!empresa " + query);
    WordsAreLower();
    LowerAfterWord("!empresa ", query);
    assert StartsWith(text, "!empresa ");
    DifferAt(text, "!empresa ", "!rotas ajuda", 1);
    DifferAt(text, "!empresa ", "!rotas", 1);
    DifferAt(text, "!empresa ", "!rota ", 1);
    DifferAt(text, "!empresa ", "!motorista ", 1);
    DifferAt(text, "!empresa ", "!monitor ", 1);
    assert "!empresa" + " " == "!empresa ";
    RestAfterWord("!empresa", query);
  }

  /** After a lower-case command word and a space, the rest of the text is the argument. */
  lemma RestAfterWord(word: string, query: string)
    requires HasNoUpper(word) && ' ' !in word
    ensures AfterFirstWord(Lower(word + " " + query)) == Lower(query)
  {
    LowerAfterWord(word + " ", query);
    assert word + " " + Lower(query) == word + " " + Lower(query);
    SplitAfterWord(word, Lower(query));
    JoinSplit(Lower(query), ' ');
  }

  /** Joining pieces without upper-case letters, with a separator that is not one, gives none. */
  lemma {:induction false} JoinNoUpper(parts: seq<string>, c: char)
    requires !IsUpperAscii(c)
    requires forall k :: 0 <= k < |parts| ==> HasNoUpper(parts[k])
    ensures HasNoUpper(Join(parts, c))
  {
    if |parts| > 1 {
      JoinNoUpper(parts[1..], c);
    }
  }

  /**
   * "!addrota" from an administrator with lower-case, pipe-free fields: at
   * least eleven fields make a new route of the first eleven, fewer make a
   * format error.
   */
  lemma AddArgument(fields: seq<string>, from: string)
    requires IsAdmin(from)
    requires |fields| >= 1
    requires forall k :: 0 <= k < |fields| ==> '|' !in fields[k] && HasNoUpper(fields[k])
    ensures |fields| >= 11 ==> ParseRotas("!addrota " + Join(fields, '|'), from) == Add(RecordOf(fields))
    ensures |fields| < 11 ==> ParseRotas("!addrota " + Join(fields, '|'), from) == AddFormatError
  {
    var body := "!addrota " + Join(fields, '|');
    JoinNoUpper(fields, '|');
    WordsAreLower();
    LowerAfterWord("!addrota ", Join(fields, '|'));
    LowerKeeps(Join(fields, '|'));
    assert Lower(body) == body;
    ReachesAdd(body, from);
    ReplacePrefix(body, "!addrota ");
    assert body[9..] == Join(fields, '|');
    SplitJoin(fields, '|');
  }

  /** A text starting with "!addrota " goes to the add branch. */
  lemma ReachesAdd(body: string, from: string)
    requires StartsWith(Lower(body), "!addrota ")
    ensures ParseRotas(body, from) == ParseAdd(Lower(body), from)
  {
    var text := Lower(body);
    CommandWordsDiffer(text, "!addrota ");
  }

  /** A text starting with "!addrota " or "!updrota " starts with none of the earlier command words. */
  lemma CommandWordsDiffer(text: string, word: string)
    requires word == "!addrota " || word == "!updrota "
    requires StartsWith(text, word)
    ensures text != "!rotas ajuda" && text != "!rotas"
    ensures !StartsWith(text, "!rota ") && !StartsWith(text, "!motorista ")
    ensures !StartsWith(text, "!monitor ") && !StartsWith(text, "!empresa ")
    ensures word == "!updrota " ==> !StartsWith(text, "!addrota ")
  {
    DifferAt(text, word, "!rotas ajuda", 1);
    DifferAt(text, word, "!rotas", 1);
    DifferAt(text, word, "!rota ", 1);
    DifferAt(text, word, "!motorista ", 1);
    DifferAt(text, word, "!monitor ", 1);
    DifferAt(text, word, "!empresa ", 1);
    DifferAt(text, word, "!addrota ", 1);
  }

  /** Two words that differ at a position cannot both start the same text. */
  lemma DifferAt(text: string, word: string, other: string, i: nat)
    requires StartsWith(text, word) && i < |word| && i < |other|
    ensures word[i] != other[i] ==> !StartsWith(text, other) && text != other
  {
    assert text[i] == word[i];
  }
}
