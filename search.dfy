/** The search handler (fileupload/search.go): a query text and its
    argument list built filter by filter, what the database makes of that
    text, and the rows the handler returns. */
module Search {
  import opened Model
  import opened Decimal
  import opened Paths
  import opened Like
  import opened Dates
  import opened Stores

  /** The user whose files are searched (fileupload/search.go:16). */
  const SearchUser: int := 3

  /** The columns Scan reads, and the owner filter. */
  const BaseText: string :=
    "SELECT id, file_name, " + "upload_date, size, " + "local_path FROM files " + "WHERE user_id = "
  /** The query with no filter: the owner bound to $1. */
  const BaseQuery: string := BaseText + "$" + "1"
  const LikeText: string := " AND file_name ILIKE "
  const DateText: string := " AND upload_date::date = "

  /** A query argument. */
  datatype Arg = IntArg(n: int) | TextArg(text: string) | DateArg(date: Date)

  /** One AND clause and the argument bound to it. */
  datatype Clause = LikeClause(pattern: string) | DateClause(date: Date)

  datatype Kind = LikeKind | DateKind

  function KindOf(c: Clause): Kind {
    if c.LikeClause? then LikeKind else DateKind
  }

  function ArgOf(c: Clause): Arg {
    match c
    case LikeClause(p) => TextArg(p)
    case DateClause(d) => DateArg(d)
  }

  /** The text of a clause bound to placeholder $k. */
  function ClauseText(kind: Kind, k: nat): string {
    (if kind == LikeKind then LikeText else DateText) + "$" + NatToString(k)
  }

  /** The clauses' texts, numbered from k. */
  function RenderClauses(cs: seq<Clause>, k: nat): string
    decreases |cs|
  {
    if cs == [] then "" else ClauseText(KindOf(cs[0]), k) + RenderClauses(cs[1..], k + 1)
  }

  /** The query text for the clauses, and its argument list. */
  function Query(cs: seq<Clause>): string {
    BaseQuery + RenderClauses(cs, 2)
  }

  function Args(owner: int, cs: seq<Clause>): (args: seq<Arg>)
    ensures |args| == |cs| + 1
    ensures args[0] == IntArg(owner)
    ensures forall i :: 0 <= i < |cs| ==> args[i + 1] == ArgOf(cs[i])
  {
    [IntArg(owner)] + seq(|cs|, i requires 0 <= i < |cs| => ArgOf(cs[i]))
  }

  /** The clauses of one request, in the order the handler adds them: the
      name filter, the date filter when the date parses, the type filter. */
  function SearchClauses(name: string, uploadDate: string, fileType: string): seq<Clause> {
    (if name != "" then [LikeClause("%" + name + "%")] else [])
    + (if uploadDate != "" && ParseDate(uploadDate).Some? then [DateClause(ParseDate(uploadDate).value)] else [])
    + (if fileType != "" then [LikeClause("%." + fileType)] else [])
  }

  // ---------------------------------------------------------------------
  // Placeholders

  /** The numbers after each '$' of a query text, left to right. */
  function Placeholders(s: string): seq<nat>
    decreases |s|
  {
    if s == [] then []
    else if s[0] == '$' then
      var d := DigitPrefix(s[1..]);
      [ParseNat(d)] + Placeholders(s[1 + |d|..])
    else Placeholders(s[1..])
  }

  predicate NoDollar(t: string) {
    '$' !in t
  }

  lemma {:induction false} PlaceholderAfter(t: string, k: nat, rest: string)
    requires NoDollar(t)
    requires rest == [] || !IsDigit(rest[0])
    ensures Placeholders(t + "$" + NatToString(k) + rest) == [k] + Placeholders(rest)
    decreases |t|
  {
    var s := t + "$" + NatToString(k) + rest;
    if t == [] {
      assert s == "$" + (NatToString(k) + rest);
      assert s[1..] == NatToString(k) + rest;
      DigitPrefixOfDigitsThen(NatToString(k), rest);
      ParseNatToString(k);
      assert s[1 + |NatToString(k)|..] == rest;
    } else {
      assert s[0] == t[0] && s[1..] == t[1..] + "$" + NatToString(k) + rest;
      PlaceholderAfter(t[1..], k, rest);
    }
  }

  /** The numbers k, k + 1, ..., k + n - 1. */
  function Numbered(k: nat, n: nat): (r: seq<nat>)
    ensures |r| == n && forall i :: 0 <= i < n ==> r[i] == k + i
    decreases n
  {
    if n == 0 then [] else [k] + Numbered(k + 1, n - 1)
  }

  lemma {:induction false} PlaceholdersOfClauses(cs: seq<Clause>, k: nat)
    ensures Placeholders(RenderClauses(cs, k)) == Numbered(k, |cs|)
    ensures RenderClauses(cs, k) == [] || RenderClauses(cs, k)[0] == ' '
    decreases |cs|
  {
    if cs != [] {
      PlaceholdersOfClauses(cs[1..], k + 1);
      var t := if KindOf(cs[0]) == LikeKind then LikeText else DateText;
      var rest := RenderClauses(cs[1..], k + 1);
      ClauseTextsNoDollar();
      assert rest == [] || !IsDigit(rest[0]);
      PlaceholderAfter(t, k, rest);
      var whole := t + "$" + NatToString(k) + rest;
      assert RenderClauses(cs, k) == whole;
      assert whole[0] == t[0];
    }
  }

  lemma ClauseTextsNoDollar()
    ensures NoDollar(LikeText) && NoDollar(DateText)
    ensures LikeText[0] == ' ' && DateText[0] == ' '
  {
  }

  lemma NoDollarConcat(a: string, b: string)
    requires NoDollar(a) && NoDollar(b)
    ensures NoDollar(a + b)
  {
    assert forall c :: c in a + b ==> c in a || c in b;
  }

  lemma BaseTextNoDollar()
    ensures NoDollar(BaseText)
  {
    var p1, p2, p3, p4 := "SELECT id, file_name, ", "upload_date, size, ", "local_path FROM files ", "WHERE user_id = ";
    assert NoDollar(p1) && NoDollar(p2) && NoDollar(p3) && NoDollar(p4);
    NoDollarConcat(p1, p2);
    NoDollarConcat(p1 + p2, p3);
    NoDollarConcat(p1 + p2 + p3, p4);
  }

  /** The placeholders of the final query are $1 .. $|args| in order, each
      exactly once, so every argument is bound to one placeholder. */
  lemma QueryPlaceholders(owner: int, cs: seq<Clause>)
    ensures Placeholders(Query(cs)) == Numbered(1, |Args(owner, cs)|)
  {
    BaseTextNoDollar();
    PlaceholdersOfClauses(cs, 2);
    var rest := RenderClauses(cs, 2);
    PlaceholderAfter(BaseText, 1, rest);
    assert NatToString(1) == "1";
    assert Query(cs) == BaseText + "$" + NatToString(1) + rest;
  }

  // ---------------------------------------------------------------------
  // What the database makes of the query

  /** The clause kinds of a query's tail, placeholders numbered from k. */
  function ParseKinds(s: string, k: nat): Option<seq<Kind>>
    decreases |s|
  {
    if s == [] then Some([])
    else
      var l, d := ClauseText(LikeKind, k), ClauseText(DateKind, k);
      if HasPrefix(s, l) && (|s| == |l| || s[|l|] == ' ') then
        match ParseKinds(s[|l|..], k + 1)
        case None => None
        case Some(ks) => Some([LikeKind] + ks)
      else if HasPrefix(s, d) && (|s| == |d| || s[|d|] == ' ') then
        match ParseKinds(s[|d|..], k + 1)
        case None => None
        case Some(ks) => Some([DateKind] + ks)
      else None
  }

  /** The clauses the arguments bind, when each has the type its kind needs. */
  function Bind(kinds: seq<Kind>, args: seq<Arg>): Option<seq<Clause>>
    decreases |kinds|
  {
    if kinds == [] then (if args == [] then Some([]) else None)
    else if args == [] then None
    else
      var c :=
        if kinds[0] == LikeKind && args[0].TextArg? then Some(LikeClause(args[0].text))
        else if kinds[0] == DateKind && args[0].DateArg? then Some(DateClause(args[0].date))
        else None;
      match (c, Bind(kinds[1..], args[1..]))
      case (Some(c0), Some(rest)) => Some([c0] + rest)
      case _ => None
  }

  /** A row satisfies one clause. */
  predicate Holds(c: Clause, r: File) {
    match c
    case LikeClause(p) => ILike(r.fileName, p)
    case DateClause(d) => SameDay(r.uploadDate, d)
  }

  /** WHERE user_id = owner AND every clause. */
  predicate Matches(r: File, owner: int, cs: seq<Clause>) {
    r.userId == owner && forall i :: 0 <= i < |cs| ==> Holds(cs[i], r)
  }

  /** No pattern of the query ends in a lone escape. The model refuses the
      whole query otherwise, whatever rows the table holds. */
  predicate PatternsOk(cs: seq<Clause>) {
    forall i :: 0 <= i < |cs| && cs[i].LikeClause? ==> WellEscaped(cs[i].pattern)
  }

  /** The ids a query of this family selects, or None when the database
      refuses it. */
  function Execute(db: DbState, query: string, args: seq<Arg>): Option<seq<int>>
    requires WellFormed(db)
  {
    if !HasPrefix(query, BaseQuery) || args == [] || !args[0].IntArg? then None
    else
      match ParseKinds(query[|BaseQuery|..], 2)
      case None => None
      case Some(kinds) =>
        match Bind(kinds, args[1..])
        case None => None
        case Some(cs) =>
          if !PatternsOk(cs) then None
          else Some(Select(db.table, db.order, (r: File) => Matches(r, args[0].n, cs)))
  }

  /** The kinds of the clauses, in order. */
  function Kinds(cs: seq<Clause>): (ks: seq<Kind>)
    ensures |ks| == |cs| && forall i :: 0 <= i < |cs| ==> ks[i] == KindOf(cs[i])
    decreases |cs|
  {
    if cs == [] then [] else [KindOf(cs[0])] + Kinds(cs[1..])
  }

  lemma {:induction false} ParseRendered(cs: seq<Clause>, k: nat)
    ensures ParseKinds(RenderClauses(cs, k), k) == Some(Kinds(cs))
    decreases |cs|
  {
    if cs != [] {
      PlaceholdersOfClauses(cs[1..], k + 1);
      ParseRendered(cs[1..], k + 1);
      ParseClause(cs[0], RenderClauses(cs[1..], k + 1), k, Kinds(cs[1..]));
    }
  }

  /** The parser reads one rendered clause and goes on with the rest. */
  lemma ParseClause(c: Clause, rest: string, k: nat, ks: seq<Kind>)
    requires rest == [] || rest[0] == ' '
    requires ParseKinds(rest, k + 1) == Some(ks)
    ensures ParseKinds(ClauseText(KindOf(c), k) + rest, k) == Some([KindOf(c)] + ks)
  {
    var own := ClauseText(KindOf(c), k);
    var s := own + rest;
    assert s[..|own|] == own && s[|own|..] == rest;
    assert |s| == |own| || s[|own|] == ' ';
    if KindOf(c) == DateKind {
      var l := ClauseText(LikeKind, k);
      assert l[5] == 'f' && s[5] == 'u';
    }
  }

  lemma {:induction false} BindArgs(cs: seq<Clause>)
    ensures Bind(Kinds(cs), seq(|cs|, i requires 0 <= i < |cs| => ArgOf(cs[i]))) == Some(cs)
    decreases |cs|
  {
    if cs != [] {
      BindArgs(cs[1..]);
      var argList := seq(|cs|, i requires 0 <= i < |cs| => ArgOf(cs[i]));
      assert Kinds(cs)[1..] == Kinds(cs[1..]);
      assert argList[1..] == seq(|cs| - 1, i requires 0 <= i < |cs| - 1 => ArgOf(cs[1..][i]));
      assert cs == [cs[0]] + cs[1..];
    }
  }

  /** The database reads the query and arguments the handler builds as
      exactly their clauses: it selects the owner's rows satisfying every
      clause, or refuses a badly escaped pattern. */
  lemma ExecuteQuery(db: DbState, owner: int, cs: seq<Clause>)
    requires WellFormed(db)
    ensures Execute(db, Query(cs), Args(owner, cs)) ==
      if PatternsOk(cs) then Some(Select(db.table, db.order, (r: File) => Matches(r, owner, cs))) else None
  {
    var q := Query(cs);
    var args := Args(owner, cs);
    assert q[..|BaseQuery|] == BaseQuery && q[|BaseQuery|..] == RenderClauses(cs, 2);
    ParseRendered(cs, 2);
    BindArgs(cs);
    assert args[1..] == seq(|cs|, i requires 0 <= i < |cs| => ArgOf(cs[i]));
    var p := (r: File) => Matches(r, owner, cs);
    var p' := (r: File) => Matches(r, args[0].n, cs);
    SelectEquivalent(db.table, db.order, p', p);
  }

  // ---------------------------------------------------------------------
  // The filters a request asks for

  /** With no name, no parsable date and no type, the query is the base
      query with the owner as its only argument. */
  lemma NoFilters(owner: int, name: string, uploadDate: string, fileType: string)
    requires name == "" && fileType == "" && (uploadDate == "" || ParseDate(uploadDate).None?)
    ensures Query(SearchClauses(name, uploadDate, fileType)) == BaseQuery
    ensures Args(owner, SearchClauses(name, uploadDate, fileType)) == [IntArg(owner)]
  {
    assert SearchClauses(name, uploadDate, fileType) == [];
  }

  /** A date that does not parse is dropped without an error. */
  lemma UnparsableDateIgnored(name: string, uploadDate: string, fileType: string)
    requires ParseDate(uploadDate).None?
    ensures SearchClauses(name, uploadDate, fileType) == SearchClauses(name, "", fileType)
  {
  }

  /** With filters free of '%', '_' and '\', a row matches exactly when it
      is the owner's, its name contains name (ignoring case), it was
      uploaded on the given day, and its name ends in "."+fileType
      (ignoring case), each condition only when that filter is present;
      and the database accepts the patterns. */
  lemma FilterMeaning(r: File, owner: int, name: string, uploadDate: string, fileType: string)
    requires Literal(name) && Literal(fileType)
    ensures var cs := SearchClauses(name, uploadDate, fileType);
      PatternsOk(cs) && (Matches(r, owner, cs) <==> Wanted(r, owner, name, uploadDate, fileType))
  {
    var a := if name != "" then [LikeClause("%" + name + "%")] else [];
    var b := if uploadDate != "" && ParseDate(uploadDate).Some? then [DateClause(ParseDate(uploadDate).value)] else [];
    var c := if fileType != "" then [LikeClause("%." + fileType)] else [];
    assert SearchClauses(name, uploadDate, fileType) == a + b + c;
    MatchesConcat(r, owner, a + b, c);
    MatchesConcat(r, owner, a, b);
    NameClauseMeaning(r, owner, name);
    DateClauseMeaning(r, owner, uploadDate);
    TypeClauseMeaning(r, owner, fileType);
    PatternsOkConcat(a + b, c);
    PatternsOkConcat(a, b);
  }

  /** The name filter's clause, when present, holds exactly for names
      containing name, ignoring case. */
  lemma NameClauseMeaning(r: File, owner: int, name: string)
    requires Literal(name)
    ensures var a := if name != "" then [LikeClause("%" + name + "%")] else [];
      && PatternsOk(a)
      && (Matches(r, owner, a) <==> r.userId == owner && (name != "" ==> ContainsFold(r.fileName, name)))
  {
    if name != "" {
      var a := [LikeClause("%" + name + "%")];
      ContainsPattern(r.fileName, name);
      NoEscapeWellEscaped("%" + name + "%");
      assert Matches(r, owner, a) <==> r.userId == owner && Holds(a[0], r);
    }
  }

  /** The date filter's clause, when the date parses, holds exactly for
      uploads on that day. */
  lemma DateClauseMeaning(r: File, owner: int, uploadDate: string)
    ensures var b := if uploadDate != "" && ParseDate(uploadDate).Some? then [DateClause(ParseDate(uploadDate).value)] else [];
      && PatternsOk(b)
      && (Matches(r, owner, b) <==>
            (r.userId == owner && (ParseDate(uploadDate).Some? ==> SameDay(r.uploadDate, ParseDate(uploadDate).value))))
  {
    var b := if uploadDate != "" && ParseDate(uploadDate).Some? then [DateClause(ParseDate(uploadDate).value)] else [];
    if b != [] {
      assert Matches(r, owner, b) <==> r.userId == owner && Holds(b[0], r);
    }
  }

  /** The type filter's clause, when present, holds exactly for names
      ending in "."+fileType, ignoring case. */
  lemma TypeClauseMeaning(r: File, owner: int, fileType: string)
    requires Literal(fileType)
    ensures var c := if fileType != "" then [LikeClause("%." + fileType)] else [];
      && PatternsOk(c)
      && (Matches(r, owner, c) <==> r.userId == owner && (fileType != "" ==> EndsWithFold(r.fileName, "." + fileType)))
  {
    if fileType != "" {
      var c := [LikeClause("%." + fileType)];
      assert "%." + fileType == "%" + ("." + fileType);
      assert Literal("." + fileType) by {
        forall i | 0 <= i < |"." + fileType| ensures !IsMeta(("." + fileType)[i]) {
          if i > 0 { assert ("." + fileType)[i] == fileType[i - 1]; }
        }
      }
      SuffixPattern(r.fileName, "." + fileType);
      NoEscapeWellEscaped("%." + fileType);
      assert Matches(r, owner, c) <==> r.userId == owner && Holds(c[0], r);
    }
  }

  lemma MatchesConcat(r: File, owner: int, a: seq<Clause>, b: seq<Clause>)
    ensures Matches(r, owner, a + b) <==> Matches(r, owner, a) && Matches(r, owner, b)
  {
    if Matches(r, owner, a) && Matches(r, owner, b) {
      forall i | 0 <= i < |a + b| ensures Holds((a + b)[i], r) {
        if i >= |a| { assert (a + b)[i] == b[i - |a|]; }
      }
    }
    if Matches(r, owner, a + b) {
      forall i | 0 <= i < |b| ensures Holds(b[i], r) {
        assert (a + b)[|a| + i] == b[i];
      }
      forall i | 0 <= i < |a| ensures Holds(a[i], r) {
        assert (a + b)[i] == a[i];
      }
    }
  }

  lemma PatternsOkConcat(a: seq<Clause>, b: seq<Clause>)
    ensures PatternsOk(a + b) <==> PatternsOk(a) && PatternsOk(b)
  {
    if PatternsOk(a) && PatternsOk(b) {
      forall i | 0 <= i < |a + b| && (a + b)[i].LikeClause? ensures WellEscaped((a + b)[i].pattern) {
        if i >= |a| { assert (a + b)[i] == b[i - |a|]; }
      }
    }
    if PatternsOk(a + b) {
      forall i | 0 <= i < |b| && b[i].LikeClause? ensures WellEscaped(b[i].pattern) {
        assert (a + b)[|a| + i] == b[i];
      }
      forall i | 0 <= i < |a| && a[i].LikeClause? ensures WellEscaped(a[i].pattern) {
        assert (a + b)[i] == a[i];
      }
    }
  }

  // ---------------------------------------------------------------------
  // The handler

  /** Which external calls of one search fail: the query, the Scan of given
      rows, and the row iteration after some rows (not checked: the loop
      just ends). */
  datatype SearchFaults = SearchFaults(queryFails: bool, scanFails: set<int>, rowsEndAfter: Option<nat>)

  /** The columns SearchFiles scans; the others keep their zero values. */
  function Scanned(r: File): File {
    File(r.id, 0, r.fileName, r.uploadDate, r.size, r.localPath, "", "", "", false, ZeroTime)
  }

  function Error(status: int, message: string): Response {
    Response(status, Message(message))
  }

  /** One search by owner with the three query parameters. */
  function SearchSpec(db: DbState, owner: int, name: string, uploadDate: string, fileType: string,
                      f: SearchFaults): Response
    requires WellFormed(db)
  {
    var cs := SearchClauses(name, uploadDate, fileType);
    if f.queryFails || !PatternsOk(cs) then Error(StatusInternalServerError, "Failed to retrieve files")
    else
      var ids := Select(db.table, db.order, (r: File) => Matches(r, owner, cs));
      var rows := ids[..Delivered(|ids|, f.rowsEndAfter)];
      if ScanFailsOn(rows, f.scanFails) then Error(StatusInternalServerError, "Failed to scan file")
      else Response(StatusOK, Listing(Rows(db.table, rows, Scanned)))
  }

  /** What a request asks for, stated without patterns: the owner's rows
      whose name contains name and ends in "."+fileType, ignoring case,
      uploaded on the given day, each condition only when that filter is
      present. */
  predicate Wanted(r: File, owner: int, name: string, uploadDate: string, fileType: string) {
    && r.userId == owner
    && (name != "" ==> ContainsFold(r.fileName, name))
    && (ParseDate(uploadDate).Some? ==> SameDay(r.uploadDate, ParseDate(uploadDate).value))
    && (fileType != "" ==> EndsWithFold(r.fileName, "." + fileType))
  }

  /** With every call succeeding and filters free of pattern
      metacharacters, the reply lists exactly the scanned columns of the
      wanted rows, in row order. */
  lemma SearchReturnsMatching(db: DbState, owner: int, name: string, uploadDate: string, fileType: string,
                              f: SearchFaults, file: File)
    requires WellFormed(db) && Literal(name) && Literal(fileType)
    requires !f.queryFails && f.scanFails == {} && f.rowsEndAfter.None?
    ensures var resp := SearchSpec(db, owner, name, uploadDate, fileType, f);
      && resp.Response? && resp.status == StatusOK && resp.body.Listing?
      && (file in resp.body.files <==>
            exists id :: id in db.table && Wanted(db.table[id], owner, name, uploadDate, fileType)
              && file == Scanned(db.table[id]))
      && resp.body.files == Rows(db.table,
           Select(db.table, db.order, (r: File) => Wanted(r, owner, name, uploadDate, fileType)), Scanned)
  {
    var cs := SearchClauses(name, uploadDate, fileType);
    FilterMeaning(file, owner, name, uploadDate, fileType);
    var p := (r: File) => Matches(r, owner, cs);
    var q := (r: File) => Wanted(r, owner, name, uploadDate, fileType);
    forall i | 0 <= i < |db.order| ensures p(db.table[db.order[i]]) <==> q(db.table[db.order[i]]) {
      FilterMeaning(db.table[db.order[i]], owner, name, uploadDate, fileType);
    }
    SelectEquivalent(db.table, db.order, p, q);
    var ids := Select(db.table, db.order, q);
    assert ids[..|ids|] == ids;
    assert SearchSpec(db, owner, name, uploadDate, fileType, f) == Response(StatusOK, Listing(Rows(db.table, ids, Scanned)));
    SelectedRows(db, q, Scanned, file);
  }

  /** A failed query, or a pattern the database refuses, is reported as a
      retrieval failure; a file type that is a lone '\\' is refused. */
  lemma SearchQueryFailure(db: DbState, owner: int, name: string, uploadDate: string, fileType: string,
                           f: SearchFaults)
    requires WellFormed(db)
    requires f.queryFails || fileType == "\\"
    ensures SearchSpec(db, owner, name, uploadDate, fileType, f) ==
      Response(StatusInternalServerError, Message("Failed to retrieve files"))
  {
    if fileType == "\\" {
      var cs := SearchClauses(name, uploadDate, fileType);
      var p := "%." + fileType;
      assert cs[|cs| - 1] == LikeClause(p);
      assert p[2..] == "\\" && !WellEscaped(p[2..]);
      assert !WellEscaped(p[1..]);
      assert !PatternsOk(cs);
    }
  }

  /** When the row iteration stops after k rows, the reply is the first k
      entries of the full listing, without an error. */
  lemma SearchTruncated(db: DbState, owner: int, name: string, uploadDate: string, fileType: string,
                        f: SearchFaults, k: nat)
    requires WellFormed(db) && Literal(name) && Literal(fileType)
    requires !f.queryFails && f.scanFails == {} && f.rowsEndAfter == Some(k)
    ensures var full := SearchSpec(db, owner, name, uploadDate, fileType, f.(rowsEndAfter := None));
      var resp := SearchSpec(db, owner, name, uploadDate, fileType, f);
      && full.Response? && full.body.Listing?
      && resp == Response(StatusOK, Listing(full.body.files[..if k < |full.body.files| then k else |full.body.files|]))
  {
    var cs := SearchClauses(name, uploadDate, fileType);
    var x: File :| true;
    FilterMeaning(x, owner, name, uploadDate, fileType);
    var ids := Select(db.table, db.order, (r: File) => Matches(r, owner, cs));
    var d := Delivered(|ids|, f.rowsEndAfter);
    assert ids[..|ids|] == ids;
    assert Rows(db.table, ids[..d], Scanned) == Rows(db.table, ids, Scanned)[..d];
  }

  /** Appending a clause appends its text, numbered after the arguments
      so far, and its argument. */
  lemma AppendClause(owner: int, cs: seq<Clause>, c: Clause)
    ensures Query(cs + [c]) == Query(cs) + ClauseText(KindOf(c), |Args(owner, cs)| + 1)
    ensures Args(owner, cs + [c]) == Args(owner, cs) + [ArgOf(c)]
  {
    RenderSnoc(cs, c, 2);
  }

  lemma {:induction false} RenderSnoc(cs: seq<Clause>, c: Clause, k: nat)
    ensures RenderClauses(cs + [c], k) == RenderClauses(cs, k) + ClauseText(KindOf(c), k + |cs|)
    decreases |cs|
  {
    if cs == [] {
      RenderOne(c, k);
    } else {
      RenderSnoc(cs[1..], c, k + 1);
      RenderSnocStep(cs, c, k);
    }
  }

  lemma RenderOne(c: Clause, k: nat)
    ensures RenderClauses([] + [c], k) == RenderClauses([], k) + ClauseText(KindOf(c), k)
  {
    assert [] + [c] == [c];
    assert RenderClauses([c], k) == ClauseText(KindOf(c), k) + RenderClauses([], k + 1);
  }

  lemma RenderSnocStep(cs: seq<Clause>, c: Clause, k: nat)
    requires cs != []
    requires RenderClauses(cs[1..] + [c], k + 1) == RenderClauses(cs[1..], k + 1) + ClauseText(KindOf(c), k + |cs|)
    ensures RenderClauses(cs + [c], k) == RenderClauses(cs, k) + ClauseText(KindOf(c), k + |cs|)
  {
    var longer := cs + [c];
    assert longer[0] == cs[0] && longer[1..] == cs[1..] + [c];
    var head := ClauseText(KindOf(cs[0]), k);
    var tail := RenderClauses(cs[1..], k + 1);
    var last := ClauseText(KindOf(c), k + |cs|);
    assert RenderClauses(longer, k) == head + (tail + last);
    assert RenderClauses(cs, k) == head + tail;
  }



  /** One `query += " AND file_name ILIKE $" + n; args = append(args, p)`
      step: the clause is numbered after the arguments so far. */
  method AddLike(ghost cs: seq<Clause>, owner: int, query: string, args: seq<Arg>, pattern: string)
    returns (query': string, args': seq<Arg>)
    requires query == Query(cs) && args == Args(owner, cs)
    ensures query' == Query(cs + [LikeClause(pattern)])
    ensures args' == Args(owner, cs + [LikeClause(pattern)])
  {
    AppendClause(owner, cs, LikeClause(pattern));
    query' := query + LikeText + "$" + IntToString(|args| + 1);
    args' := args + [TextArg(pattern)];
  }

  /** The same step for the `upload_date::date = $n` clause. */
  method AddDate(ghost cs: seq<Clause>, owner: int, query: string, args: seq<Arg>, date: Date)
    returns (query': string, args': seq<Arg>)
    requires query == Query(cs) && args == Args(owner, cs)
    ensures query' == Query(cs + [DateClause(date)])
    ensures args' == Args(owner, cs + [DateClause(date)])
  {
    AppendClause(owner, cs, DateClause(date));
    query' := query + DateText + "$" + IntToString(|args| + 1);
    args' := args + [DateArg(date)];
  }

  /** The query building of SearchFiles: the base query with the owner as
      $1, then one clause per present filter, each numbered after the
      arguments so far and followed by its argument. */
  method BuildSearchQuery(owner: int, name: string, uploadDate: string, fileType: string)
    returns (query: string, args: seq<Arg>)
    ensures query == Query(SearchClauses(name, uploadDate, fileType))
    ensures args == Args(owner, SearchClauses(name, uploadDate, fileType))
  {
    query := BaseQuery;
    args := [IntArg(owner)];
    ghost var cs: seq<Clause> := [];
    assert RenderClauses(cs, 2) == "";
    assert query == Query(cs);
    if name != "" {
      query, args := AddLike(cs, owner, query, args, "%" + name + "%");
      cs := cs + [LikeClause("%" + name + "%")];
    }
    ghost var cs1 := cs;
    if uploadDate != "" {
      var date := ParseDate(uploadDate);
      if date.Some? {
        query, args := AddDate(cs, owner, query, args, date.value);
        cs := cs + [DateClause(date.value)];
      }
    }
    ghost var cs2 := cs;
    if fileType != "" {
      query, args := AddLike(cs, owner, query, args, "%." + fileType);
      cs := cs + [LikeClause("%." + fileType)];
    }
    assert cs1 == (if name != "" then [LikeClause("%" + name + "%")] else []);
    assert cs == SearchClauses(name, uploadDate, fileType);
  }

  /** SearchFiles for the hard-coded user. */
  method SearchFiles(db: Database, name: string, uploadDate: string, fileType: string, f: SearchFaults)
    returns (resp: Response)
    requires db.Valid()
    ensures resp == SearchSpec(db.Value(), SearchUser, name, uploadDate, fileType, f)
  {
    var userId := SearchUser;
    var query, args := BuildSearchQuery(userId, name, uploadDate, fileType);
    if f.queryFails {
      return Error(StatusInternalServerError, "Failed to retrieve files");
    }
    ExecuteQuery(db.Value(), userId, SearchClauses(name, uploadDate, fileType));
    var result := Execute(db.Value(), query, args);
    if result.None? {
      return Error(StatusInternalServerError, "Failed to retrieve files");
    }
    var rows := result.value[..Delivered(|result.value|, f.rowsEndAfter)];
    var files, scanFailed := db.ScanRows(rows, f.scanFails, Scanned);
    if scanFailed {
      return Error(StatusInternalServerError, "Failed to scan file");
    }
    resp := Response(StatusOK, Listing(files));
  }
}
