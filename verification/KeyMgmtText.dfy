/** The key management parser and printer as loops over character buffers. */
module KeyMgmtText {
  import opened Seqs
  import opened Text
  import opened KeyMgmt

  // ---- Parsing ----

  /** From `start` on, the buffer still holds the text and its terminator. */
  ghost predicate Holds(buf: array<char>, value: string, start: int)
    reads buf
  {
    && 0 <= start <= |value| && buf.Length == |value| + 1
    && (forall i :: start <= i < |value| ==> buf[i] == value[i])
    && buf[|value|] == '\0'
  }

  method Copy(value: string) returns (buf: array<char>)
    ensures fresh(buf) && Holds(buf, value, 0)
  {
    buf := new char[|value| + 1](i => if 0 <= i < |value| then value[i] else '\0');
  }

  function Rest(value: string, i: int): seq<string>
    requires 0 <= i <= |value|
  {
    Tokens(value[i..])
  }

  lemma BlankSkipped(value: string, i: int)
    requires 0 <= i < |value| && IsBlank(value[i])
    ensures Rest(value, i) == Rest(value, i + 1)
  {
    assert value[i..][1..] == value[i + 1..];
  }

  lemma WordTaken(value: string, i: int, e: int)
    requires 0 <= i < e <= |value| && forall k :: i <= k < e ==> !IsBlank(value[k])
    requires e < |value| ==> IsBlank(value[e])
    ensures Rest(value, i) == [value[i..e]] + Rest(value, e)
  {
    assert value[i..] == value[i..e] + value[e..];
    WordThenBlank(value[i..e], value[e..]);
  }

  lemma NothingLeft(cfg: Config, value: string)
    ensures AkmsOf(cfg, Rest(value, |value|)) == Some({})
  {
  }

  function Plus(akms: set<Akm>, more: Option<set<Akm>>): Option<set<Akm>> {
    if more.None? then None else Some(akms + more.value)
  }

  lemma OneMore(cfg: Config, akms: set<Akm>, t: string, ts: seq<string>)
    ensures var a := ParseToken(cfg, t);
            Plus(akms, AkmsOf(cfg, [t] + ts)) == if a.None? then None else Plus(akms + {a.value}, AkmsOf(cfg, ts))
  {
    assert ([t] + ts)[1..] == ts;
    var rest := AkmsOf(cfg, ts);
    var a := ParseToken(cfg, t);
    hide ParseToken;
    if a.Some? && rest.Some? {
      assert akms + ({a.value} + rest.value) == akms + {a.value} + rest.value;
    }
  }

  lemma AtTerminator(buf: array<char>, value: string, start: int)
    requires Holds(buf, value, start) && buf[start] == '\0' && '\0' !in value
    ensures start == |value|
  {
  }

  method SkipBlanks(buf: array<char>, value: string, from: nat) returns (start: nat)
    requires Holds(buf, value, from)
    ensures from <= start && Holds(buf, value, start) && Rest(value, from) == Rest(value, start)
    ensures start < |value| ==> !IsBlank(value[start])
  {
    start := from;
    while buf[start] == ' ' || buf[start] == '\t'
      invariant from <= start && Holds(buf, value, start) && Rest(value, from) == Rest(value, start)
      decreases |value| - start
    {
      BlankSkipped(value, start);
      start := start + 1;
    }
  }

  method FindEnd(buf: array<char>, value: string, start: nat) returns (end: nat)
    requires Holds(buf, value, start) && '\0' !in value
    ensures start <= end && Holds(buf, value, end) && buf[start..end] == value[start..end]
    ensures forall k :: start <= k < end ==> !IsBlank(value[k])
    ensures end < |value| ==> IsBlank(value[end])
  {
    end := start;
    while buf[end] != ' ' && buf[end] != '\t' && buf[end] != '\0'
      invariant start <= end && Holds(buf, value, end) && buf[start..end] == value[start..end]
      invariant forall k :: start <= k < end ==> !IsBlank(value[k])
      decreases |value| - end
    {
      end := end + 1;
    }
    assert end < |value| ==> value[end] in value;
  }

  /** Parse a C string: cut a copy into words by writing terminators into it, and look up each word. */
  method ParseKeyMgmt(cfg: Config, value: string) returns (r: Option<set<Akm>>)
    requires '\0' !in value
    ensures r == Parse(cfg, value)
  {
    hide ParseToken, Tokens, AkmsOf;
    var buf := Copy(value);
    var val: set<Akm> := {};
    var start := 0;
    assert value[0..] == value;
    ghost var whole := AkmsOf(cfg, Tokens(value));
    assert whole == Plus(val, AkmsOf(cfg, Rest(value, 0))) by {
      if whole.Some? { assert {} + whole.value == whole.value; }
    }
    NothingLeft(cfg, value);
    while buf[start] != '\0'
      invariant Holds(buf, value, start)
      invariant whole == Plus(val, AkmsOf(cfg, Rest(value, start)))
      decreases |value| - start
    {
      start := SkipBlanks(buf, value, start);
      if buf[start] == '\0' {
        break;
      }
      var end := FindEnd(buf, value, start);
      assert start < |value|;
      assert start < end;
      WordTaken(value, start, end);
      OneMore(cfg, val, value[start..end], Rest(value, end));
      var last := buf[end] == '\0';
      buf[end] := '\0';
      var a := ParseToken(cfg, buf[start..end]);
      if a.None? {
        return None;
      }
      val := val + {a.value};
      if last {
        start := end;
        break;
      }
      BlankSkipped(value, end);
      start := end + 1;
    }
    AtTerminator(buf, value, start);
    assert whole == Some(val);
    return if val == {} then None else Some(val);
  }

  // ---- Printing ----

  /** Write what fits of a text and a terminator, and return the length that it needed. */
  method Snprintf(buf: array<char>, pos: nat, s: string) returns (ret: nat)
    requires pos <= buf.Length
    modifies buf
    ensures ret == |s| && buf[..pos] == old(buf[..pos])
    ensures var n := buf.Length - pos;
            n > 0 ==> var k := if |s| < n then |s| else n - 1; buf[pos..pos + k] == s[..k] && buf[pos + k] == '\0'
  {
    ret := |s|;
    var n := buf.Length - pos;
    if n > 0 {
      var k := if |s| < n then |s| else n - 1;
      forall i | pos <= i < pos + k {
        buf[i] := s[i - pos];
      }
      buf[pos + k] := '\0';
    }
  }

  lemma PrintedPrefix(cfg: Config, akms: set<Akm>, order: seq<Akm>, k: nat)
    requires k <= |order|
    ensures Printed(cfg, akms, order[..k]) <= Printed(cfg, akms, order)
    decreases |order|
  {
    hide Prints;
    if k == |order| {
      assert order[..k] == order;
    } else {
      var front := order[..|order| - 1];
      assert front[..k] == order[..k];
      PrintedPrefix(cfg, akms, front, k);
    }
  }

  lemma {:induction false} SpacedMonotone(ps: seq<Akm>, k: nat)
    requires k <= |ps|
    ensures |Spaced(ps[..k])| <= |Spaced(ps)|
  {
    hide Name;
    if k > 0 {
      assert ps[..k][1..] == ps[1..][..k - 1];
      SpacedMonotone(ps[1..], k - 1);
    }
  }

  lemma NoneSpaced()
    ensures Spaced([]) == ""
  {
  }

  /** A buffer of `size` characters had room for the first `k` names, each with its space, and for no more. */
  ghost predicate CutShort(ps: seq<Akm>, size: nat, out: string) {
    exists k | 0 <= k < |ps| ::
      && out == Spaced(ps[..k]) && (k > 0 ==> |out| < size)
      && |Spaced(ps[..k + 1])| >= size
  }

  /** Print one more name after those in `done`. */
  method PrintName(ghost done: seq<Akm>, a: Akm, buf: array<char>, pos: nat) returns (fits: bool, next: nat)
    requires pos <= buf.Length && buf[..pos] == Spaced(done)
    modifies buf
    ensures fits == (|Spaced(done + [a])| < buf.Length)
    ensures next <= buf.Length && buf[..next] == Spaced(if fits then done + [a] else done)
  {
    hide Name, Spaced;
    SpacedSnoc(done, a);
    var ret := Snprintf(buf, pos, Name(a) + " ");
    fits, next := ret < buf.Length - pos, pos;
    if fits {
      next := pos + ret;
      assert buf[..next] == buf[..pos] + buf[pos..next];
      assert buf[pos..next] == (Name(a) + " ")[..ret] == Name(a) + " ";
      assert Spaced(done) + Name(a) + " " == Spaced(done) + (Name(a) + " ");
    }
  }

  /** Drop the space after the last name. */
  method Trim(ghost ps: seq<Akm>, buf: array<char>, pos: nat) returns (len: nat)
    requires pos <= buf.Length && buf[..pos] == Spaced(ps)
    modifies buf
    ensures ps == [] ==> len == 0
    ensures ps != [] ==> len < buf.Length && buf[..len] == Joined(ps) && buf[len] == '\0'
  {
    hide Name, Joined;
    if ps != [] {
      TrimSpaced(ps);
      assert buf[pos - 1] == Spaced(ps)[pos - 1] == ' ';
    }
    len := pos;
    if pos > 0 && buf[pos - 1] == ' ' {
      buf[pos - 1] := '\0';
      len := pos - 1;
      assert buf[..len] == Spaced(ps)[..len];
    }
  }

  /**
   Print the AKMs. With room for all the names, their spaces and a terminator, the buffer holds the terminated
   joined text. With less, the length says how many whole names there was room for.
   */
  method GetKeyMgmt(cfg: Config, akms: set<Akm>, buf: array<char>) returns (len: nat)
    requires akms != {}
    modifies buf
    ensures var ps := Printed(cfg, akms, PRINT_ORDER);
            && len <= buf.Length
            && if ps == [] then len == 0
               else if |Spaced(ps)| < buf.Length
                 then len < buf.Length && buf[..len] == Listing(cfg, akms) && buf[len] == '\0'
               else CutShort(ps, buf.Length, buf[..len])
  {
    hide Prints, Name, Spaced, Joined;
    ghost var ps := Printed(cfg, akms, PRINT_ORDER);
    var order := PRINT_ORDER;
    hide PRINT_ORDER;
    var pos: nat, k: nat := 0, 0;
    ghost var done: seq<Akm> := [];
    NoneSpaced();
    while k < |order|
      invariant k <= |order| && done == Printed(cfg, akms, order[..k])
      invariant pos <= buf.Length && buf[..pos] == Spaced(done)
      invariant done != [] ==> pos < buf.Length
    {
      var a := order[k];
      assert order[..k + 1][..k] == order[..k];
      if a in akms && Prints(cfg, a) {
        PrintedPrefix(cfg, akms, order, k + 1);
        assert done == ps[..|done|] && ps[..|done| + 1] == done + [a];
        var fits, next := PrintName(done, a, buf, pos);
        if !fits {
          SpacedMonotone(ps, |done| + 1);
          return next;
        }
        pos := next;
        done := done + [a];
      }
      k := k + 1;
    }
    assert order[..k] == order;
    len := Trim(ps, buf, pos);
  }
}
