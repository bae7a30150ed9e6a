/** The AKM names as they stand in a configuration line and in a status line. */
module KeyMgmtForms {
  import opened Seqs
  import opened Text
  import opened KeyMgmt

  /** A build with everything. */
  const EVERYTHING := Config(true, true, true, true, true, true, true, true, true, true)

  lemma {:induction false} AllPrinted(akms: set<Akm>, order: seq<Akm>)
    requires forall a :: a in order ==> a in akms && Prints(EVERYTHING, a)
    ensures Printed(EVERYTHING, akms, order) == order
  {
    if order != [] {
      var front, last := order[..|order| - 1], order[|order| - 1];
      assert last in order && forall a :: a in front ==> a in order;
      AllPrinted(akms, front);
    }
  }

  /** The words of the status line, in its order, when a build with everything has all of them on. */
  const WORDS := [
    "WPA-PSK", "WPA-EAP", "FT-PSK", "FT-EAP", "FT-EAP-SHA384", "FT-SAE", "FT-FILS-SHA256", "FT-FILS-SHA384",
    "WPA-PSK-SHA256", "WPA-EAP-SHA256", "SAE", "WPA-EAP-SUITE-B", "WPA-EAP-SUITE-B-192", "FILS-SHA256",
    "FILS-SHA384", "OWE", "DPP"]

  lemma NamesAreWords(k: nat)
    requires k < |PRINT_ORDER|
    ensures |WORDS| == |PRINT_ORDER| && WORDS[k] == Name(PRINT_ORDER[k])
  {
    if k < 4 {
    } else if k < 8 {
    } else if k < 12 {
    } else {
    }
  }

  lemma NamesOfOrder()
    ensures Names(PRINT_ORDER) == WORDS
  {
    NamesAreWords(0);
    hide WORDS, PRINT_ORDER, Name;
    var ns := Names(PRINT_ORDER);
    forall k | 0 <= k < |ns| ensures WORDS[k] == ns[k] {
      NamesAreWords(k);
    }
  }

  lemma StatusWords(akms: set<Akm>)
    requires forall a :: a in PRINT_ORDER ==> a in akms
    ensures Tokens(Listing(EVERYTHING, akms)) == WORDS
  {
    hide WORDS, Name, Tokens, Joined, Printed, Names;
    forall a | a in PRINT_ORDER ensures Prints(EVERYTHING, a) {
    }
    hide PRINT_ORDER;
    AllPrinted(akms, PRINT_ORDER);
    TokensOfJoined(PRINT_ORDER);
    NamesOfOrder();
  }

  lemma TwoNames(a: Akm, b: Akm)
    ensures Joined([a, b]) == Name(a) + " " + Name(b) && Names([a, b]) == [Name(a), Name(b)]
  {
    assert [a, b][1..] == [b];
    hide Name;
  }

  lemma TwoParsed(cfg: Config, a: Akm, b: Akm)
    ensures Parse(cfg, Name(a) + " " + Name(b)) == if Parses(cfg, a) && Parses(cfg, b) then Some({a, b}) else None
  {
    hide ParseToken, Tokens, Joined, Name, Parses;
    TwoNames(a, b);
    TokensOfJoined([a, b]);
    NameParses(cfg, a);
    NameParses(cfg, b);
    var ts := [Name(a), Name(b)];
    assert ts[1..] == [Name(b)] && ts[1..][1..] == [];
    assert AkmsOf(cfg, []) == Some({});
    assert AkmsOf(cfg, [Name(b)]) == if Parses(cfg, b) then Some({b} + {}) else None;
    assert {a} + ({b} + {}) == {a, b};
  }

  /** The two AKMs that are parsed and never printed. */
  lemma UnprintedWords(cfg: Config)
    ensures Parse(cfg, "OSEN PASN") == if cfg.hs20 && cfg.pasn then Some({Osen, Pasn}) else None
  {
    TwoParsed(cfg, Osen, Pasn);
    assert Name(Osen) == "OSEN" && Name(Pasn) == "PASN";
    hide Parse, Name;
    assert "OSEN" + " " + "PASN" == "OSEN PASN";
  }

  // ---- Words ----

  predicate Blank(c: char) {
    c == ' ' || c == '\t'
  }

  /** A stretch without blanks that cannot be made longer. */
  predicate WordAt(s: string, i: int, j: int) {
    && 0 <= i < j <= |s| && (forall k :: i <= k < j ==> !Blank(s[k]))
    && (i > 0 ==> Blank(s[i - 1])) && (j < |s| ==> Blank(s[j]))
  }

  ghost predicate HasWord(s: string, w: string) {
    exists i, j :: WordAt(s, i, j) && s[i..j] == w
  }

  /** The tokens are the stretches between blanks. */
  lemma {:induction false} TokensExactly(s: string, w: string)
    ensures w in Tokens(s) <==> HasWord(s, w)
    decreases |s|
  {
    if s != [] {
      if IsBlank(s[0]) {
        TokensExactly(s[1..], w);
        assert s == [s[0]] + s[1..];
        WordBehind(s[..1], s[1..], w);
        hide HasWord, WordAt;
        assert w in Tokens(s) <==> w in Tokens(s[1..]);
      } else {
        var k := WordLength(s);
        TokensExactly(s[k..], w);
        FirstWord(s, k, w);
        hide HasWord;
        assert Tokens(s) == [s[..k]] + Tokens(s[k..]);
      }
    }
  }

  lemma WordShifted(p: string, t: string, i: int, j: int)
    requires |p| == 1 && Blank(p[0]) && 0 <= i < j <= |t|
    ensures WordAt(p + t, i + 1, j + 1) <==> WordAt(t, i, j)
    ensures (p + t)[i + 1..j + 1] == t[i..j]
  {
    var s := p + t;
    assert s[0] == p[0] && forall m :: 0 <= m < |t| ==> s[m + 1] == t[m];
    if WordAt(s, i + 1, j + 1) {
      forall m | i <= m < j ensures !Blank(t[m]) {
        assert s[m + 1] == t[m];
      }
    }
  }

  lemma WordBehind(p: string, t: string, w: string)
    requires |p| == 1 && Blank(p[0])
    ensures HasWord(p + t, w) <==> HasWord(t, w)
  {
    var s := p + t;
    if i, j :| WordAt(t, i, j) && t[i..j] == w {
      WordShifted(p, t, i, j);
      assert WordAt(s, i + 1, j + 1);
    }
    if i, j :| WordAt(s, i, j) && s[i..j] == w {
      assert s[0] == p[0] && !Blank(s[i]);
      WordShifted(p, t, i - 1, j - 1);
      assert WordAt(t, i - 1, j - 1);
    }
  }

  lemma FirstWord(s: string, k: int, w: string)
    requires 0 < k <= |s| && (forall i :: 0 <= i < k ==> !Blank(s[i])) && (k < |s| ==> Blank(s[k]))
    ensures HasWord(s, w) <==> w == s[..k] || HasWord(s[k..], w)
  {
    assert WordAt(s, 0, k) && s[0..k] == s[..k];
    var t := s[k..];
    if i, j :| WordAt(t, i, j) && t[i..j] == w {
      assert i > 0 by { assert t[0] == s[k]; }
      assert s[i + k..j + k] == w;
      assert t[i - 1] == s[i + k - 1] && (j < |t| ==> t[j] == s[j + k]);
      forall m | i + k <= m < j + k ensures !Blank(s[m]) {
        assert s[m] == t[m - k];
      }
      assert WordAt(s, i + k, j + k);
    }
    if i, j :| WordAt(s, i, j) && s[i..j] == w {
      if i == 0 {
        assert j == k;
      } else {
        assert i > k;
        assert t[i - k..j - k] == w && WordAt(t, i - k, j - k);
      }
    }
  }
}
