/** The pipeline's write path into the startup sheet: the "Spreadsheet Update
    Tool" that validates one parsed startup record and appends it as a row,
    and the consolidation of the prospecting tasks' comma-separated name
    lists into one set of candidate names. */
module StartupSheet {
  import opened Common
  import opened Text
  import opened Sheets

  /** The only countries a startup may come from; compared by exact,
      case-sensitive equality. */
  const LatinAmericaCountries: seq<string> := [
    "Argentina", "Bolívia", "Brasil", "Chile", "Colômbia", "Costa Rica",
    "Cuba", "Equador", "El Salvador", "Guatemala", "Haiti", "Honduras",
    "México", "Nicarágua", "Panamá", "Paraguai", "Peru",
    "República Dominicana", "Uruguai", "Venezuela"
  ]

  /** The JSON keys written to columns 0 to 9 of a new row; column 10 holds
      the save timestamp. */
  const ColumnKeys: seq<string> := [
    NameKey, "Site", SectorKey, CountryKey, YearKey,
    "Tecnologias de IA Utilizadas", "Nome do Investidor (VC)",
    "Valor da Última Rodada", "Nome do Líder Técnico", "Linkedin do Líder Técnico"
  ]

  /** The oldest a startup may be, in years, and still be saved. */
  const MaxAge := 10

  /** What `json.loads` made of the tool's input: not JSON at all, JSON that
      is not an object (named by its Python type), or an object whose values
      are taken as text. */
  datatype JsonInput = Malformed | NonObject(typeName: string) | Object(fields: map<string, string>)

  /** How one call of the tool ends. */
  datatype SaveOutcome =
    | InvalidJson
    | Failure(detail: string)
    | NotLatinAmerican(name: string, country: string)
    | Duplicate(name: string, atRow: nat)
    | NameRequired
    | TooOld(name: string, age: nat, year: nat)
    | Saved(name: string, country: string, cells: seq<string>)

  /** `data.get(key, default)`. */
  function Get(data: map<string, string>, key: string, default: string): string
  {
    if key in data then data[key] else default
  }

  // ---------------------------------------------------------------------
  // The founding year: first match of \b(19|20)\d{2}\b

  /** Characters the regular expression's `\w` accepts, within Latin-1. */
  predicate IsWordChar(c: char)
  {
    || ('a' <= c <= 'z') || ('A' <= c <= 'Z') || IsDigit(c) || c == '_'
    || c == '\U{00AA}' || c == '\U{00B2}' || c == '\U{00B3}' || c == '\U{00B5}'
    || c == '\U{00B9}' || c == '\U{00BA}' || ('\U{00BC}' <= c <= '\U{00BE}')
    || ('\U{00C0}' <= c <= '\U{00D6}') || ('\U{00D8}' <= c <= '\U{00F6}')
    || ('\U{00F8}' <= c <= '\U{00FF}')
  }

  /** `\b(19|20)\d{2}\b` matches at position `i` of `s`. */
  predicate YearAt(s: string, i: int)
  {
    && 0 <= i && i + 4 <= |s|
    && ((s[i] == '1' && s[i + 1] == '9') || (s[i] == '2' && s[i + 1] == '0'))
    && IsDigit(s[i + 2]) && IsDigit(s[i + 3])
    && (i == 0 || !IsWordChar(s[i - 1]))
    && (i + 4 == |s| || !IsWordChar(s[i + 4]))
  }

  /** The left-most match at or after position `k`. */
  function FirstYearFrom(s: string, k: nat): (r: Option<nat>)
    ensures r.Some? ==> k <= r.value && YearAt(s, r.value)
    ensures r.Some? ==> forall j :: k <= j < r.value ==> !YearAt(s, j)
    ensures r.None? ==> forall j :: k <= j ==> !YearAt(s, j)
    decreases |s| - k
  {
    if k + 4 > |s| then None
    else if YearAt(s, k) then Some(k)
    else FirstYearFrom(s, k + 1)
  }

  /** `int(re.search(r'\b(19|20)\d{2}\b', s).group())`, or `None` when the
      search finds nothing. The year read is the left-most match and lies in
      1900..2099. */
  function FoundingYear(s: string): (r: Option<nat>)
    ensures r.Some? <==> exists i :: YearAt(s, i)
    ensures r.Some? ==> 1900 <= r.value <= 2099
    ensures r.Some? ==> var i := FirstYearFrom(s, 0).value;
      YearAt(s, i) && (forall j :: 0 <= j < i ==> !YearAt(s, j)) && NatToString(r.value) == s[i..i + 4]
  {
    match FirstYearFrom(s, 0)
    case None => None
    case Some(i) =>
      var digits := s[i..i + 4];
      assert AllDigits(digits);
      FourDigitYear(digits);
      NatToStringDecimalValue(digits);
      Some(DecimalValue(digits))
  }

  lemma FourDigitYear(t: string)
    requires |t| == 4 && AllDigits(t)
    requires (t[0] == '1' && t[1] == '9') || (t[0] == '2' && t[1] == '0')
    ensures 1900 <= DecimalValue(t) <= 2099
  {
    assert t[..3][..2][..1][..0] == [];
    assert DecimalValue(t[..1]) == t[0] as int - '0' as int;
    assert DecimalValue(t[..2]) == DecimalValue(t[..2][..1]) * 10 + (t[1] as int - '0' as int);
    assert t[..2][..1] == t[..1] && t[..3][..2] == t[..2];
  }

  /** A year written out on its own is the founding year read from it. */
  lemma YearTextRoundTrip(y: nat)
    requires 1900 <= y <= 2099
    ensures FoundingYear(NatToString(y)) == Some(y)
  {
    LeadingYearWins(y, "");
    assert NatToString(y) + "" == NatToString(y);
  }

  /** A field that opens with a year gives that year, whatever later years
      it mentions: "2005, relaunched in 2020" is founded in 2005. */
  lemma LeadingYearWins(y: nat, rest: string)
    requires 1900 <= y <= 2099
    requires rest == [] || !IsWordChar(rest[0])
    ensures FoundingYear(NatToString(y) + rest) == Some(y)
  {
    var t := NatToString(y);
    var s := t + rest;
    var a, b, c := NatToString(y / 10), NatToString(y / 100), NatToString(y / 1000);
    assert t == a + [DigitChar(y % 10)];
    assert a == b + [DigitChar(y / 10 % 10)];
    assert b == c + [DigitChar(y / 100 % 10)];
    assert c == [DigitChar(y / 1000)];
    assert |t| == 4;
    assert t[0] == DigitChar(y / 1000) && t[1] == DigitChar(y / 100 % 10);
    if y < 2000 {
      assert y / 1000 == 1 && y / 100 % 10 == 9;
    } else {
      assert y / 1000 == 2 && y / 100 % 10 == 0;
    }
    assert s[..4] == t;
    assert YearAt(s, 0);
    assert s[0..4] == t;
    ParseNatToString(y);
    var r := FoundingYear(s);
    ParseNatToString(r.value);
  }

  // ---------------------------------------------------------------------
  // The guard chain and the row it writes

  /** The row written for an accepted record: the JSON value of each column
      key, the placeholder for a missing key (the name and the country are
      read with an empty default), and the timestamp last. */
  function BuildRow(data: map<string, string>, timestamp: string): (row: seq<string>)
    ensures |row| == |ColumnKeys| + 1 && row[|ColumnKeys|] == timestamp
    ensures row[0] == Get(data, NameKey, "") && row[3] == Get(data, CountryKey, "")
    ensures forall k :: 0 <= k < |ColumnKeys| ==>
      row[k] == (if ColumnKeys[k] in data then data[ColumnKeys[k]] else if k in {0, 3} then "" else NotFound)
  {
    [ Get(data, NameKey, ""),
      Get(data, "Site", NotFound),
      Get(data, SectorKey, NotFound),
      Get(data, CountryKey, ""),
      Get(data, YearKey, NotFound),
      Get(data, "Tecnologias de IA Utilizadas", NotFound),
      Get(data, "Nome do Investidor (VC)", NotFound),
      Get(data, "Valor da Última Rodada", NotFound),
      Get(data, "Nome do Líder Técnico", NotFound),
      Get(data, "Linkedin do Líder Técnico", NotFound),
      timestamp ]
  }

  /** The founding year the age check uses: none when the field is missing,
      empty, the placeholder, or holds no year. */
  function CheckedYear(data: map<string, string>): (y: Option<nat>)
    ensures y.Some? <==> YearKey in data && data[YearKey] !in {"", NotFound} && exists i :: YearAt(data[YearKey], i)
    ensures y.Some? ==> 1900 <= y.value <= 2099
    ensures y.Some? ==> y == FoundingYear(data[YearKey])
  {
    var text := Get(data, YearKey, "");
    if text != "" && text != NotFound then FoundingYear(text) else None
  }

  /** The year the age check uses is written out by the left-most match in
      the field, at position `i`: no match starts before it. */
  lemma CheckedYearIsFirstMatch(data: map<string, string>) returns (i: nat)
    requires CheckedYear(data).Some?
    ensures YearKey in data && YearAt(data[YearKey], i)
    ensures forall j :: 0 <= j < i ==> !YearAt(data[YearKey], j)
    ensures NatToString(CheckedYear(data).value) == data[YearKey][i..i + 4]
  {
    i := FirstYearFrom(data[YearKey], 0).value;
  }

  /** The tool's decision for one input against the sheet's current rows.
      The checks run in a fixed order: country, duplicate, name, age; only a
      record that passes all four is written. */
  function Decide(input: JsonInput, sheet: seq<seq<string>>, currentYear: int, timestamp: string): (r: SaveOutcome)
    ensures r.InvalidJson? <==> input.Malformed?
    ensures r.Failure? <==> input.NonObject?
    ensures input.Object? && Get(input.fields, CountryKey, "") !in LatinAmericaCountries ==>
      r == NotLatinAmerican(Get(input.fields, NameKey, ""), Get(input.fields, CountryKey, ""))
    ensures r.NotLatinAmerican? ==> input.Object? && Get(input.fields, CountryKey, "") !in LatinAmericaCountries
    ensures r.Duplicate? ==>
      (input.Object? && r.name == Get(input.fields, NameKey, "")
       && Get(input.fields, CountryKey, "") in LatinAmericaCountries
       && FindRow(sheet, r.name) == Some(r.atRow))
    ensures r.NameRequired? ==> input.Object? && Get(input.fields, NameKey, "") in {"", NotFound}
    ensures r.TooOld? ==>
      (input.Object? && r.name !in {"", NotFound}
       && CheckedYear(input.fields) == Some(r.year) && r.age == currentYear - r.year > MaxAge)
    ensures r.Saved? ==>
      (input.Object? && r.name == Get(input.fields, NameKey, "")
       && r.name !in {"", NotFound} && FindRow(sheet, r.name).None?
       && r.country in LatinAmericaCountries
       && (CheckedYear(input.fields).Some? ==> currentYear - CheckedYear(input.fields).value <= MaxAge))
    ensures r.Saved? ==> r.cells == BuildRow(input.fields, timestamp)
  {
    match input
    case Malformed => InvalidJson
    case NonObject(t) => Failure("'" + t + "' object has no attribute 'get'")
    case Object(data) =>
      var name := Get(data, NameKey, "");
      var country := Get(data, CountryKey, "");
      if country !in LatinAmericaCountries then NotLatinAmerican(name, country)
      else match FindRow(sheet, name)
        case Some(row) => Duplicate(name, row)
        case None =>
          if name == "" || name == NotFound then NameRequired
          else match CheckedYear(data)
            case Some(year) =>
              if currentYear - year > MaxAge then TooOld(name, currentYear - year, year)
              else Saved(name, country, BuildRow(data, timestamp))
            case None => Saved(name, country, BuildRow(data, timestamp))
  }

  /** Which outcome a record from a listed country gets, guard by guard in
      the order they run: a name `find` locates is a duplicate whatever it
      is (even blank or the placeholder), then a missing name is refused,
      then an age over `MaxAge`; everything else is saved as `BuildRow`. */
  lemma DecideComplete(data: map<string, string>, sheet: seq<seq<string>>, currentYear: int, timestamp: string)
    requires Get(data, CountryKey, "") in LatinAmericaCountries
    ensures var r := Decide(Object(data), sheet, currentYear, timestamp);
      var name := Get(data, NameKey, "");
      var found := FindRow(sheet, name);
      var year := CheckedYear(data);
      && (found.Some? ==> r == Duplicate(name, found.value))
      && (found.None? && name in {"", NotFound} ==> r == NameRequired)
      && (found.None? && name !in {"", NotFound} && year.Some? && currentYear - year.value > MaxAge ==>
            r == TooOld(name, currentYear - year.value, year.value))
      && (found.None? && name !in {"", NotFound} && (year.None? || currentYear - year.value <= MaxAge) ==>
            r == Saved(name, Get(data, CountryKey, ""), BuildRow(data, timestamp)))
  {
  }

  /** A startup exactly `MaxAge` years old is accepted on age; one a year
      older is refused. */
  lemma AgeBoundary(data: map<string, string>, sheet: seq<seq<string>>, year: nat, timestamp: string)
    requires Get(data, CountryKey, "") in LatinAmericaCountries
    requires FindRow(sheet, Get(data, NameKey, "")).None?
    requires Get(data, NameKey, "") !in {"", NotFound}
    requires 1900 <= year <= 2099 && Get(data, YearKey, "") == NatToString(year)
    ensures Decide(Object(data), sheet, year + MaxAge, timestamp).Saved?
    ensures Decide(Object(data), sheet, year + MaxAge + 1, timestamp).TooOld?
  {
    YearTextRoundTrip(year);
    assert NatToString(year) != NotFound by {
      assert AllDigits(NatToString(year)) && !IsDigit(NotFound[0]);
    }
  }

  /** A record with no readable founding year is never refused on age. */
  lemma NoYearNoAgeRejection(data: map<string, string>, sheet: seq<seq<string>>, currentYear: int, timestamp: string)
    requires forall i :: !YearAt(Get(data, YearKey, ""), i)
    ensures !Decide(Object(data), sheet, currentYear, timestamp).TooOld?
  {
  }

  /** Saving is idempotent: once a record has been saved, submitting it again
      reports the duplicate at the row just written and writes nothing. */
  lemma SaveTwiceIsDuplicate(input: JsonInput, sheet: seq<seq<string>>, currentYear: int, t1: string, t2: string)
    requires Decide(input, sheet, currentYear, t1).Saved?
    ensures var r := Decide(input, sheet, currentYear, t1);
      Decide(input, sheet + [r.cells], currentYear, t2) == Duplicate(r.name, |sheet| + 1)
  {
    var r := Decide(input, sheet, currentYear, t1);
    assert r.cells[0] in r.cells;
    FindAfterAppend(sheet, r.cells, r.name);
  }

  /** The opening words of the tool's reply, which say how the call ended. */
  function Status(r: SaveOutcome): string
  {
    match r
    case InvalidJson => "ERRO"
    case Failure(_) => "ERRO"
    case NotLatinAmerican(_, _) => "REJEITADO: "
    case NameRequired => "REJEITADO: "
    case TooOld(_, _, _) => "REJEITADO: "
    case Duplicate(name, _) => "DUPLICATA EVITADA: '" + name + "'"
    case Saved(_, _, _) => "✅ SUCESSO: "
  }

  /** The rest of the reply. */
  function Detail(r: SaveOutcome): string
  {
    match r
    case InvalidJson => ": JSON inválido fornecido para a ferramenta de planilha"
    case Failure(detail) => " ao salvar na planilha: " + detail
    case NotLatinAmerican(name, country) =>
      "'" + name + "' não é da América Latina (país: " + country
        + "). Apenas países válidos: " + Join(LatinAmericaCountries, ", ")
    case NameRequired => "Nome da startup é obrigatório"
    case TooOld(name, age, year) =>
      "'" + name + "' tem " + NatToString(age) + " anos (fundada em "
        + NatToString(year) + "). Limite máximo: 10 anos."
    case Duplicate(_, row) =>
      " já existe na planilha (linha " + NatToString(row) + "). Não foi adicionada novamente."
    case Saved(name, country, _) => "Startup '" + name + "' da " + country + " adicionada à planilha!"
  }

  /** The text the tool hands back to the agent for each outcome. */
  function Message(r: SaveOutcome): (m: string)
    ensures r.NotLatinAmerican? || r.NameRequired? || r.TooOld? ==> IsPrefix("REJEITADO: ", m)
    ensures r.Duplicate? ==> IsPrefix("DUPLICATA EVITADA: '" + r.name + "'", m)
    ensures r.Saved? ==> IsPrefix("✅ SUCESSO: ", m)
    ensures r.InvalidJson? || r.Failure? ==> IsPrefix("ERRO", m)
  {
    PrefixOfConcat(Status(r), Detail(r));
    Status(r) + Detail(r)
  }

  /** One call of the tool: decide against the sheet as it stands, append
      the row when the record is accepted, and report. */
  method SpreadsheetTool(ws: Worksheet, input: JsonInput, currentYear: int, timestamp: string)
    returns (message: string)
    modifies ws
    ensures var r := Decide(input, old(ws.rows), currentYear, timestamp);
      && message == Message(r)
      && ws.rows == (if r.Saved? then old(ws.rows) + [r.cells] else old(ws.rows))
  {
    var outcome := Decide(input, ws.rows, currentYear, timestamp);
    if outcome.Saved? {
      ws.AppendRow(outcome.cells);
    }
    message := Message(outcome);
  }

  // ---------------------------------------------------------------------
  // Consolidating the prospected names

  /** The non-blank images under `clean` of a list of pieces. */
  function Cleaned(pieces: seq<string>, clean: string -> string): set<string>
  {
    if pieces == [] then {}
    else
      var name := clean(pieces[|pieces| - 1]);
      Cleaned(pieces[..|pieces| - 1], clean) + (if name != "" then {name} else {})
  }

  /** The union of what `names` yields for each output. */
  function Gathered(outputs: seq<string>, names: string -> set<string>): set<string>
  {
    if outputs == [] then {}
    else Gathered(outputs[..|outputs| - 1], names) + names(outputs[|outputs| - 1])
  }

  /** The names a list of pieces contributes: each piece stripped, blanks
      dropped. */
  function PieceNames(pieces: seq<string>): set<string>
  {
    Cleaned(pieces, Trim)
  }

  /** The names one task output contributes: its comma-separated pieces. */
  function OutputNames(output: string): set<string>
  {
    PieceNames(Split(output, ','))
  }

  /** The set of names collected from the prospecting tasks' raw outputs. */
  function CandidateNames(outputs: seq<string>): set<string>
  {
    Gathered(outputs, OutputNames)
  }

  /** Taking one more piece adds its cleaned form, unless that is blank. */
  lemma CleanedPrefix(pieces: seq<string>, clean: string -> string, j: nat)
    requires j < |pieces|
    ensures Cleaned(pieces[..j + 1], clean) ==
      Cleaned(pieces[..j], clean) + (if clean(pieces[j]) != "" then {clean(pieces[j])} else {})
  {
    var longer := pieces[..j + 1];
    assert longer[..j] == pieces[..j] && longer[j] == pieces[j];
  }

  /** Taking one more output adds its names. */
  lemma GatheredPrefix(outputs: seq<string>, names: string -> set<string>, t: nat)
    requires t < |outputs|
    ensures Gathered(outputs[..t + 1], names) == Gathered(outputs[..t], names) + names(outputs[t])
  {
    var longer := outputs[..t + 1];
    assert longer[..t] == outputs[..t] && longer[t] == outputs[t];
  }

  /** The inner loop of the consolidation: the output split on commas, each
      piece stripped, and the non-empty ones added to the set. */
  method AddOutputNames(found: set<string>, output: string) returns (grown: set<string>)
    ensures grown == found + OutputNames(output)
  {
    var names := Split(output, ',');
    grown := found;
    var j := 0;
    while j < |names|
      invariant 0 <= j <= |names|
      invariant grown == found + Cleaned(names[..j], Trim)
    {
      var cleanName := Trim(names[j]);
      if cleanName != "" {
        grown := grown + {cleanName};
      }
      CleanedPrefix(names, Trim, j);
      j := j + 1;
    }
    assert names[..j] == names;
  }

  /** The consolidation loop: every task output's names added to the set. */
  method ConsolidateNames(outputs: seq<string>) returns (found: set<string>)
    ensures found == CandidateNames(outputs)
  {
    found := {};
    var t := 0;
    while t < |outputs|
      invariant 0 <= t <= |outputs|
      invariant found == Gathered(outputs[..t], OutputNames)
    {
      found := AddOutputNames(found, outputs[t]);
      GatheredPrefix(outputs, OutputNames, t);
      t := t + 1;
    }
    assert outputs[..t] == outputs;
  }

  lemma {:induction false} CleanedOrigin(pieces: seq<string>, clean: string -> string, n: string) returns (j: nat)
    requires n in Cleaned(pieces, clean)
    ensures j < |pieces| && clean(pieces[j]) == n && n != ""
  {
    var init := pieces[..|pieces| - 1];
    if n in Cleaned(init, clean) {
      j := CleanedOrigin(init, clean, n);
      assert pieces[j] == init[j];
    } else {
      j := |pieces| - 1;
    }
  }

  lemma {:induction false} CleanedCollected(pieces: seq<string>, clean: string -> string, j: nat)
    requires j < |pieces| && clean(pieces[j]) != ""
    ensures clean(pieces[j]) in Cleaned(pieces, clean)
  {
    var init := pieces[..|pieces| - 1];
    if j < |init| {
      assert pieces[j] == init[j];
      CleanedCollected(init, clean, j);
    }
  }

  lemma {:induction false} GatheredOrigin(outputs: seq<string>, names: string -> set<string>, n: string) returns (i: nat)
    requires n in Gathered(outputs, names)
    ensures i < |outputs| && n in names(outputs[i])
  {
    var init := outputs[..|outputs| - 1];
    if n in Gathered(init, names) {
      i := GatheredOrigin(init, names, n);
      assert outputs[i] == init[i];
    } else {
      i := |outputs| - 1;
    }
  }

  lemma {:induction false} GatheredCollected(outputs: seq<string>, names: string -> set<string>, i: nat)
    requires i < |outputs|
    ensures names(outputs[i]) <= Gathered(outputs, names)
  {
    var init := outputs[..|outputs| - 1];
    if i < |init| {
      assert outputs[i] == init[i];
      GatheredCollected(init, names, i);
    }
  }

  /** Every collected name is a stripped, non-empty comma-separated piece of
      some task output, found at output `i`, piece `j`. */
  lemma CollectedNameOrigin(outputs: seq<string>, n: string) returns (i: nat, j: nat)
    requires n in CandidateNames(outputs)
    ensures i < |outputs| && j < |Split(outputs[i], ',')|
    ensures Trim(Split(outputs[i], ',')[j]) == n && n != ""
  {
    i := GatheredOrigin(outputs, OutputNames, n);
    j := CleanedOrigin(Split(outputs[i], ','), Trim, n);
  }

  /** Every stripped, non-empty comma-separated piece of every task output is
      collected. */
  lemma EveryPieceCollected(outputs: seq<string>, i: nat, j: nat)
    requires i < |outputs| && j < |Split(outputs[i], ',')|
    requires Trim(Split(outputs[i], ',')[j]) != ""
    ensures Trim(Split(outputs[i], ',')[j]) in CandidateNames(outputs)
  {
    CleanedCollected(Split(outputs[i], ','), Trim, j);
    GatheredCollected(outputs, OutputNames, i);
  }

  /** Every collected name is non-empty, already stripped, and free of commas. */
  lemma CandidateNameIsClean(outputs: seq<string>, n: string)
    requires n in CandidateNames(outputs)
    ensures n != "" && Trim(n) == n && ',' !in n
  {
    var i, j := CollectedNameOrigin(outputs, n);
    TrimIdempotent(Split(outputs[i], ',')[j]);
    if ',' in n {
      TrimChars(Split(outputs[i], ',')[j], ',');
    }
  }
}
