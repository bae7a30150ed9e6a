/**
 The key management list of an access point: the configuration parser, the status printer, and how the two
 fit together under each build configuration.
 */
module KeyMgmt {
  import opened Seqs
  import opened Text

  datatype Akm =
    | Psk | Eap | FtPsk | FtEap | FtEapSha384 | PskSha256 | EapSha256 | Sae | FtSae | SuiteB | SuiteB192
    | FilsSha256 | FilsSha384 | FtFilsSha256 | FtFilsSha384 | Owe | Dpp | Osen | Pasn

  /** The build options that the two functions depend on. */
  datatype Config = Config(
    ft: bool, sha384: bool, sae: bool, suiteB: bool, suiteB192: bool, fils: bool, owe: bool, dpp: bool,
    hs20: bool, pasn: bool)

  function Name(a: Akm): string {
    match a
    case Psk => "WPA-PSK"
    case Eap => "WPA-EAP"
    case FtPsk => "FT-PSK"
    case FtEap => "FT-EAP"
    case FtEapSha384 => "FT-EAP-SHA384"
    case PskSha256 => "WPA-PSK-SHA256"
    case EapSha256 => "WPA-EAP-SHA256"
    case Sae => "SAE"
    case FtSae => "FT-SAE"
    case SuiteB => "WPA-EAP-SUITE-B"
    case SuiteB192 => "WPA-EAP-SUITE-B-192"
    case FilsSha256 => "FILS-SHA256"
    case FilsSha384 => "FILS-SHA384"
    case FtFilsSha256 => "FT-FILS-SHA256"
    case FtFilsSha384 => "FT-FILS-SHA384"
    case Owe => "OWE"
    case Dpp => "DPP"
    case Osen => "OSEN"
    case Pasn => "PASN"
  }

  /** The parser's chain of comparisons. */
  function ParseToken(cfg: Config, t: string): Option<Akm> {
    if t == "WPA-PSK" then Some(Psk)
    else if t == "WPA-EAP" then Some(Eap)
    else if cfg.ft && t == "FT-PSK" then Some(FtPsk)
    else if cfg.ft && t == "FT-EAP" then Some(FtEap)
    else if cfg.ft && cfg.sha384 && t == "FT-EAP-SHA384" then Some(FtEapSha384)
    else if t == "WPA-PSK-SHA256" then Some(PskSha256)
    else if t == "WPA-EAP-SHA256" then Some(EapSha256)
    else if cfg.sae && t == "SAE" then Some(Sae)
    else if cfg.sae && t == "FT-SAE" then Some(FtSae)
    else ParseLater(cfg, t)
  }

  /** The second half of the chain. */
  function ParseLater(cfg: Config, t: string): Option<Akm> {
    if cfg.suiteB && t == "WPA-EAP-SUITE-B" then Some(SuiteB)
    else if cfg.suiteB192 && t == "WPA-EAP-SUITE-B-192" then Some(SuiteB192)
    else if cfg.fils && t == "FILS-SHA256" then Some(FilsSha256)
    else if cfg.fils && t == "FILS-SHA384" then Some(FilsSha384)
    else if cfg.fils && cfg.ft && t == "FT-FILS-SHA256" then Some(FtFilsSha256)
    else if cfg.fils && cfg.ft && t == "FT-FILS-SHA384" then Some(FtFilsSha384)
    else if cfg.owe && t == "OWE" then Some(Owe)
    else if cfg.dpp && t == "DPP" then Some(Dpp)
    else if cfg.hs20 && t == "OSEN" then Some(Osen)
    else if cfg.pasn && t == "PASN" then Some(Pasn)
    else None
  }

  /** What the parser of a build knows. */
  predicate Parses(cfg: Config, a: Akm) {
    match a
    case Psk => true
    case Eap => true
    case PskSha256 => true
    case EapSha256 => true
    case FtPsk => cfg.ft
    case FtEap => cfg.ft
    case FtEapSha384 => cfg.ft && cfg.sha384
    case Sae => cfg.sae
    case FtSae => cfg.sae
    case SuiteB => cfg.suiteB
    case SuiteB192 => cfg.suiteB192
    case FilsSha256 => cfg.fils
    case FilsSha384 => cfg.fils
    case FtFilsSha256 => cfg.fils && cfg.ft
    case FtFilsSha384 => cfg.fils && cfg.ft
    case Owe => cfg.owe
    case Dpp => cfg.dpp
    case Osen => cfg.hs20
    case Pasn => cfg.pasn
  }

  /** What the printer of a build names. */
  predicate Prints(cfg: Config, a: Akm) {
    match a
    case FtSae => cfg.ft && cfg.sae
    case SuiteB => true
    case SuiteB192 => true
    case Osen => false
    case Pasn => false
    case _ => Parses(cfg, a)
  }

  lemma NameParses(cfg: Config, a: Akm)
    ensures ParseToken(cfg, Name(a)) == if Parses(cfg, a) then Some(a) else None
  {
  }

  lemma TokenIsName(cfg: Config, t: string)
    ensures var a := ParseToken(cfg, t); a.Some? ==> t == Name(a.value) && Parses(cfg, a.value)
  {
    LaterIsName(cfg, t);
    hide ParseLater, Parses;
    var a := ParseToken(cfg, t);
    assert a.Some? ==> t == Name(a.value);
    hide ParseToken, Name;
    if a.Some? {
      NameParses(cfg, a.value);
    }
  }

  lemma LaterIsName(cfg: Config, t: string)
    ensures var a := ParseLater(cfg, t); a.Some? ==> t == Name(a.value)
  {
  }

  // ---- Tokens ----

  /** The length of the word at the start of a text. */
  function WordLength(s: string): (k: nat)
    ensures k <= |s|
    ensures forall i :: 0 <= i < k ==> !IsBlank(s[i])
    ensures k < |s| ==> IsBlank(s[k])
  {
    if s == [] || IsBlank(s[0]) then 0 else 1 + WordLength(s[1..])
  }

  function Tokens(s: string): seq<string>
    decreases |s|
  {
    if s == [] then []
    else if IsBlank(s[0]) then Tokens(s[1..])
    else
      var k := WordLength(s);
      [s[..k]] + Tokens(s[k..])
  }

  /** The AKMs of some tokens, or None when one of them is not an AKM of this build. */
  function AkmsOf(cfg: Config, ts: seq<string>): Option<set<Akm>> {
    if ts == [] then Some({})
    else
      var a, rest := ParseToken(cfg, ts[0]), AkmsOf(cfg, ts[1..]);
      if a.None? || rest.None? then None else Some({a.value} + rest.value)
  }

  /** The parser: an empty or unknown list is an error. */
  function Parse(cfg: Config, s: string): Option<set<Akm>> {
    var r := AkmsOf(cfg, Tokens(s));
    if r == Some({}) then None else r
  }

  /** The tokens decide one by one. */
  lemma {:induction false} AkmsMeaning(cfg: Config, ts: seq<string>)
    ensures AkmsOf(cfg, ts).None? <==> exists t :: t in ts && ParseToken(cfg, t).None?
    ensures AkmsOf(cfg, ts).Some? ==>
              forall a :: a in AkmsOf(cfg, ts).value <==> exists t :: t in ts && ParseToken(cfg, t) == Some(a)
  {
    hide ParseToken;
    if ts != [] {
      AkmsMeaning(cfg, ts[1..]);
      assert forall t :: t in ts <==> t == ts[0] || t in ts[1..];
    }
  }

  /** Only the set of tokens matters: not their order, repetition or spacing. */
  lemma TokenSetDecides(cfg: Config, s: string, s': string)
    requires Elems(Tokens(s)) == Elems(Tokens(s'))
    ensures Parse(cfg, s) == Parse(cfg, s')
  {
    var ts, ts' := Tokens(s), Tokens(s');
    hide ParseToken, Tokens, AkmsOf;
    assert forall t :: t in ts <==> t in ts' by {
      assert forall t :: t in ts <==> t in Elems(ts);
      assert forall t :: t in ts' <==> t in Elems(ts');
    }
    AkmsMeaning(cfg, ts);
    AkmsMeaning(cfg, ts');
    if AkmsOf(cfg, ts).Some? {
      assert AkmsOf(cfg, ts).value == AkmsOf(cfg, ts').value;
    }
  }

  /** A parsed list is exactly the AKMs of the build whose names are among the tokens. */
  lemma ParseMeaning(cfg: Config, s: string)
    requires Parse(cfg, s).Some?
    ensures forall a :: a in Parse(cfg, s).value <==> Parses(cfg, a) && Name(a) in Tokens(s)
  {
    hide ParseToken, Parses, Name, Tokens;
    AkmsMeaning(cfg, Tokens(s));
    forall a ensures a in Parse(cfg, s).value <==> Parses(cfg, a) && Name(a) in Tokens(s) {
      NameParses(cfg, a);
      if a in Parse(cfg, s).value {
        var t :| t in Tokens(s) && ParseToken(cfg, t) == Some(a);
        TokenIsName(cfg, t);
      }
    }
  }

  // ---- The printer ----

  const PRINT_ORDER := [
    Psk, Eap, FtPsk, FtEap, FtEapSha384, FtSae, FtFilsSha256, FtFilsSha384, PskSha256, EapSha256,
    Sae, SuiteB, SuiteB192, FilsSha256, FilsSha384, Owe, Dpp]

  /** The AKMs among `order` that are printed, in order. */
  function Printed(cfg: Config, akms: set<Akm>, order: seq<Akm>): seq<Akm> {
    if order == [] then []
    else
      var front := Printed(cfg, akms, order[..|order| - 1]);
      var a := order[|order| - 1];
      if a in akms && Prints(cfg, a) then front + [a] else front
  }

  lemma {:induction false} PrintedMeaning(cfg: Config, akms: set<Akm>, order: seq<Akm>)
    ensures forall a :: a in Printed(cfg, akms, order) <==> a in order && a in akms && Prints(cfg, a)
  {
    hide Prints;
    if order != [] {
      PrintedMeaning(cfg, akms, order[..|order| - 1]);
      assert forall a :: a in order <==> a in order[..|order| - 1] || a == order[|order| - 1];
    }
  }

  lemma OrderIsComplete(cfg: Config, a: Akm)
    ensures Prints(cfg, a) ==> a in PRINT_ORDER
  {
    match a
    case Psk => assert PRINT_ORDER[0] == a;
    case Eap => assert PRINT_ORDER[1] == a;
    case FtPsk => assert PRINT_ORDER[2] == a;
    case FtEap => assert PRINT_ORDER[3] == a;
    case FtEapSha384 => assert PRINT_ORDER[4] == a;
    case FtSae => assert PRINT_ORDER[5] == a;
    case FtFilsSha256 => assert PRINT_ORDER[6] == a;
    case FtFilsSha384 => assert PRINT_ORDER[7] == a;
    case PskSha256 => assert PRINT_ORDER[8] == a;
    case EapSha256 => assert PRINT_ORDER[9] == a;
    case Sae => assert PRINT_ORDER[10] == a;
    case SuiteB => assert PRINT_ORDER[11] == a;
    case SuiteB192 => assert PRINT_ORDER[12] == a;
    case FilsSha256 => assert PRINT_ORDER[13] == a;
    case FilsSha384 => assert PRINT_ORDER[14] == a;
    case Owe => assert PRINT_ORDER[15] == a;
    case Dpp => assert PRINT_ORDER[16] == a;
    case Osen =>
    case Pasn =>
  }

  /** Every name followed by a space. */
  function Spaced(akms: seq<Akm>): string {
    if akms == [] then "" else Name(akms[0]) + " " + Spaced(akms[1..])
  }

  /** The names with a space between any two. */
  function Joined(akms: seq<Akm>): string {
    if akms == [] then ""
    else if |akms| == 1 then Name(akms[0])
    else Name(akms[0]) + " " + Joined(akms[1..])
  }

  lemma {:induction false} SpacedSnoc(akms: seq<Akm>, a: Akm)
    ensures Spaced(akms + [a]) == Spaced(akms) + Name(a) + " "
  {
    hide Name;
    if akms == [] {
      assert akms + [a] == [a] && [a][1..] == [];
      assert Spaced([]) == "";
    } else {
      assert (akms + [a])[1..] == akms[1..] + [a];
      SpacedSnoc(akms[1..], a);
    }
  }

  /** Trimming the last space of the spaced names joins them. */
  lemma {:induction false} TrimSpaced(akms: seq<Akm>)
    requires akms != []
    ensures Spaced(akms) == Joined(akms) + " "
  {
    hide Name;
    if |akms| == 1 {
      assert Spaced(akms[1..]) == "";
    } else {
      TrimSpaced(akms[1..]);
    }
  }

  /** What the printer says of a set of AKMs, given room enough. */
  function Listing(cfg: Config, akms: set<Akm>): string {
    Joined(Printed(cfg, akms, PRINT_ORDER))
  }

  // ---- Printing and parsing back ----

  function Names(akms: seq<Akm>): (r: seq<string>)
    ensures |r| == |akms| && forall i :: 0 <= i < |akms| ==> r[i] == Name(akms[i])
  {
    seq(|akms|, i requires 0 <= i < |akms| => Name(akms[i]))
  }

  predicate IsWord(w: string) {
    w != "" && forall i :: 0 <= i < |w| ==> !IsBlank(w[i])
  }

  lemma NameIsWord(a: Akm)
    ensures IsWord(Name(a))
  {
  }

  lemma WordThenBlank(w: string, rest: string)
    requires IsWord(w) && (rest == "" || IsBlank(rest[0]))
    ensures Tokens(w + rest) == [w] + Tokens(rest)
  {
    var k := WordLength(w + rest);
    assert forall i :: 0 <= i < |w| ==> (w + rest)[i] == w[i];
    assert rest != "" ==> (w + rest)[|w|] == rest[0];
    assert k == |w|;
    assert (w + rest)[..|w|] == w && (w + rest)[|w|..] == rest;
  }

  lemma {:induction false} TokensOfJoined(akms: seq<Akm>)
    ensures Tokens(Joined(akms)) == Names(akms)
  {
    hide Name, WordLength;
    if akms != [] {
      NameIsWord(akms[0]);
      if |akms| == 1 {
        WordThenBlank(Name(akms[0]), "");
        assert Name(akms[0]) + "" == Name(akms[0]);
        assert Tokens("") == [];
      } else {
        var rest := Joined(akms[1..]);
        assert Name(akms[0]) + (" " + rest) == Joined(akms);
        WordThenBlank(Name(akms[0]), " " + rest);
        BlankThen(rest);
        TokensOfJoined(akms[1..]);
      }
    }
  }

  lemma BlankThen(s: string)
    ensures Tokens(" " + s) == Tokens(s)
  {
    assert (" " + s)[1..] == s;
  }

  lemma {:induction false} NamesParse(cfg: Config, akms: seq<Akm>)
    ensures AkmsOf(cfg, Names(akms)) == if forall a :: a in akms ==> Parses(cfg, a) then Some(Elems(akms)) else None
  {
    hide Name, Parses, ParseToken;
    if akms == [] {
      assert Elems(akms) == {};
    } else {
      assert Names(akms)[1..] == Names(akms[1..]);
      NamesParse(cfg, akms[1..]);
      NameParses(cfg, akms[0]);
      assert Elems(akms) == {akms[0]} + Elems(akms[1..]);
      assert forall a :: a in akms <==> a == akms[0] || a in akms[1..];
    }
  }

  function PrintableIn(cfg: Config, akms: set<Akm>): set<Akm> {
    set a | a in akms && Prints(cfg, a)
  }

  /** Parsing what was printed yields the printed AKMs, if there are any and the parser of the build knows them all. */
  lemma ParsePrinted(cfg: Config, akms: set<Akm>)
    ensures var p := PrintableIn(cfg, akms);
            Parse(cfg, Listing(cfg, akms)) == if p != {} && (forall a :: a in p ==> Parses(cfg, a)) then Some(p) else None
  {
    hide Prints, Parses, ParseToken;
    var ps := Printed(cfg, akms, PRINT_ORDER);
    TokensOfJoined(ps);
    NamesParse(cfg, ps);
    PrintedMeaning(cfg, akms, PRINT_ORDER);
    forall a ensures Prints(cfg, a) ==> a in PRINT_ORDER {
      OrderIsComplete(cfg, a);
    }
    assert Elems(ps) == PrintableIn(cfg, akms);
  }

  /**
   Parsing undoes printing exactly for the non-empty sets of AKMs that both sides of the build know. With all
   options built in these are the sets without OSEN and PASN, which the printer does not name.
   */
  lemma ParseUndoesPrint(cfg: Config, akms: set<Akm>)
    ensures Parse(cfg, Listing(cfg, akms)) == Some(akms)
            <==> akms != {} && forall a :: a in akms ==> Prints(cfg, a) && Parses(cfg, a)
  {
    hide Prints, Parses, Parse, Listing;
    ParsePrinted(cfg, akms);
    if forall a :: a in akms ==> Prints(cfg, a) && Parses(cfg, a) {
      assert PrintableIn(cfg, akms) == akms;
    }
  }

  /** The builds in which every printed list parses: those with both Suite B options. */
  lemma PrintedIsParsed(cfg: Config)
    ensures (forall akms :: PrintableIn(cfg, akms) != {} ==> Parse(cfg, Listing(cfg, akms)).Some?)
            <==> cfg.suiteB && cfg.suiteB192
  {
    if cfg.suiteB && cfg.suiteB192 {
      forall akms | PrintableIn(cfg, akms) != {} ensures Parse(cfg, Listing(cfg, akms)).Some? {
        ParsePrinted(cfg, akms);
      }
    } else {
      var a := if cfg.suiteB then SuiteB192 else SuiteB;
      PrintedSuiteBIsRefused(cfg, a);
      assert a in PrintableIn(cfg, {a});
    }
  }

  /** In any other build there is a list that the printer names and the parser refuses. */
  lemma PrintedSuiteBIsRefused(cfg: Config, a: Akm)
    requires (a == SuiteB && !cfg.suiteB) || (a == SuiteB192 && !cfg.suiteB192)
    ensures Listing(cfg, {a}) == Name(a) && Parse(cfg, Listing(cfg, {a})).None?
  {
    ParsePrinted(cfg, {a});
    OrderIsComplete(cfg, a);
    OrderIsOnce();
    PrintedOnce(cfg, a, PRINT_ORDER);
    assert Prints(cfg, a) && !Parses(cfg, a);
    hide Name, Parse, Printed, Prints, Parses, PRINT_ORDER, NoDup;
    assert a in PrintableIn(cfg, {a});
  }

  lemma OrderIsOnce()
    ensures NoDup(PRINT_ORDER)
  {
  }

  /** A single AKM is printed once. */
  lemma {:induction false} PrintedOnce(cfg: Config, a: Akm, order: seq<Akm>)
    requires NoDup(order)
    ensures Printed(cfg, {a}, order) == if a in order && Prints(cfg, a) then [a] else []
  {
    hide Prints;
    if order != [] {
      PrintedOnce(cfg, a, order[..|order| - 1]);
    }
  }

  // ---- Parsing, and printing back ----

  /** Printing a parsed list and parsing that gives the list back exactly when the printer names all of it. */
  lemma ParsedSurvives(cfg: Config, s: string)
    requires Parse(cfg, s).Some?
    ensures var akms := Parse(cfg, s).value;
            Parse(cfg, Listing(cfg, akms)) == Some(akms) <==> forall a :: a in akms ==> Prints(cfg, a)
  {
    ParseMeaning(cfg, s);
    ParseUndoesPrint(cfg, Parse(cfg, s).value);
    assert Parse(cfg, s).value != {};
    hide Parse, Parses, Prints, Listing, Name, Tokens;
  }

  /** What the parser of a build knows and the printer does not name. */
  lemma LostByPrinting(cfg: Config, a: Akm)
    ensures Parses(cfg, a) && !Prints(cfg, a) <==>
              (a == FtSae && cfg.sae && !cfg.ft) || (a == Osen && cfg.hs20) || (a == Pasn && cfg.pasn)
  {
  }

  /** So a list of just one of these is parsed, but printed as nothing, which does not parse. */
  lemma ParsedIsLost(cfg: Config, a: Akm)
    requires Parses(cfg, a) && !Prints(cfg, a)
    ensures Parse(cfg, Name(a)) == Some({a}) && Listing(cfg, {a}) == "" && Parse(cfg, "").None?
  {
    NameParses(cfg, a);
    NameIsWord(a);
    OrderIsOnce();
    PrintedOnce(cfg, a, PRINT_ORDER);
    WordThenBlank(Name(a), "");
    hide Name, ParseToken, Parses, Prints, PRINT_ORDER, NoDup, WordLength;
    assert Name(a) + "" == Name(a) && Tokens("") == [];
    assert [Name(a)][1..] == [] && AkmsOf(cfg, []) == Some({});
    assert {a} + {} == {a};
  }
}
