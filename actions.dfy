/** The turn's output text: BEACON and WAIT commands, each closed by ';',
    with numbers written as std::to_string writes an int. A reader for
    BEACON commands is given as the partner of the writer. */
module Actions {
  import opened Cells

  datatype Option<T> = None | Some(value: T)

  const WAIT_COMMAND := "WAIT;"

  predicate IsDigit(ch: char)
  {
    '0' <= ch <= '9'
  }

  function DigitChar(d: nat): (ch: char)
    requires d < 10
    ensures IsDigit(ch) && (ch as int) - ('0' as int) == d
  {
    (('0' as int) + d) as char
  }

  /** Decimal digits of n, most significant first, without leading zeros. */
  function NatStr(n: nat): (s: string)
    ensures |s| >= 1 && forall i :: 0 <= i < |s| ==> IsDigit(s[i])
    ensures s[0] == '0' ==> n == 0 && |s| == 1
    decreases n
  {
    if n < 10 then [DigitChar(n)] else NatStr(n / 10) + [DigitChar(n % 10)]
  }

  /** std::to_string of an int: a minus sign before the digits of a negative number. */
  function IntStr(i: int): (s: string)
    ensures |s| >= 1 && ' ' !in s && ';' !in s
  {
    if i < 0 then "-" + NatStr(-i) else NatStr(i)
  }

  predicate AllDigits(s: string)
  {
    forall i :: 0 <= i < |s| ==> IsDigit(s[i])
  }

  /** The value of a run of decimal digits. */
  function DigitsValue(s: string): nat
    requires AllDigits(s)
  {
    if s == [] then 0
    else DigitsValue(s[..|s| - 1]) * 10 + ((s[|s| - 1] as int) - ('0' as int))
  }

  /** Reads back what IntStr writes; None for anything else that is not a numeral. */
  function ParseInt(s: string): Option<int>
  {
    if |s| >= 2 && s[0] == '-' && AllDigits(s[1..]) then Some(-(DigitsValue(s[1..]) as int))
    else if |s| >= 1 && AllDigits(s) then Some(DigitsValue(s))
    else None
  }

  lemma {:induction false} NatStrValue(n: nat)
    ensures DigitsValue(NatStr(n)) == n
    decreases n
  {
    if n >= 10 {
      NatStrValue(n / 10);
      var s := NatStr(n);
      assert s[..|s| - 1] == NatStr(n / 10);
    }
  }

  /** Writing an int and reading it back gives the int. */
  lemma IntStrRoundTrip(i: int)
    ensures ParseInt(IntStr(i)) == Some(i)
  {
    var s := IntStr(i);
    if i < 0 {
      assert s[1..] == NatStr(-i) && AllDigits(s[1..]);
      NatStrValue(-i);
    } else {
      assert s == NatStr(i) && AllDigits(s) && IsDigit(s[0]);
      NatStrValue(i);
    }
  }

  /** commit_beacon's command. */
  function BeaconCommand(cellId: int, strength: int): (s: string)
    ensures |s| > 8 && s[..7] == "BEACON " && s[|s| - 1] == ';'
  {
    "BEACON " + IntStr(cellId) + " " + IntStr(strength) + ";"
  }

  /** The text before the first occurrence of ch and the text after it. */
  function SplitFirst(s: string, ch: char): Option<(string, string)>
  {
    if s == [] then None
    else if s[0] == ch then Some(([], s[1..]))
    else match SplitFirst(s[1..], ch)
      case None => None
      case Some(parts) => Some(([s[0]] + parts.0, parts.1))
  }

  lemma {:induction false} SplitFirstAt(w: string, ch: char, rest: string)
    requires ch !in w
    ensures SplitFirst(w + [ch] + rest, ch) == Some((w, rest))
  {
    if w == [] {
      assert w + [ch] + rest == [ch] + rest;
    } else {
      assert (w + [ch] + rest)[1..] == w[1..] + [ch] + rest;
      SplitFirstAt(w[1..], ch, rest);
      assert [w[0]] + w[1..] == w;
    }
  }

  /** Reads one BEACON command back into its cell and strength. */
  function ParseBeacon(s: string): Option<(int, int)>
  {
    if |s| < 8 || s[..7] != "BEACON " || s[|s| - 1] != ';' then None
    else match SplitFirst(s[7..|s| - 1], ' ')
      case None => None
      case Some(parts) =>
        match (ParseInt(parts.0), ParseInt(parts.1))
          case (Some(cellId), Some(strength)) => Some((cellId, strength))
          case _ => None
  }

  /** A written BEACON command reads back as the cell and strength it was written with. */
  lemma BeaconRoundTrip(cellId: int, strength: int)
    ensures ParseBeacon(BeaconCommand(cellId, strength)) == Some((cellId, strength))
  {
    var s := BeaconCommand(cellId, strength);
    assert s[7..|s| - 1] == IntStr(cellId) + [' '] + IntStr(strength);
    SplitFirstAt(IntStr(cellId), ' ', IntStr(strength));
    IntStrRoundTrip(cellId);
    IntStrRoundTrip(strength);
  }

  /** The end of fill_beacons: a BEACON command for every cell with a positive
      beacon, in cell order. */
  function BeaconsText(cells: seq<Cell>): string
  {
    if cells == [] then ""
    else
      var k := |cells| - 1;
      BeaconsText(cells[..k]) + (if cells[k].beacon > 0 then BeaconCommand(k, cells[k].beacon) else "")
  }

  /** The (cell, strength) pairs the commands announce, in cell order. */
  function BeaconList(cells: seq<Cell>): seq<(nat, int)>
  {
    if cells == [] then []
    else
      var k := |cells| - 1;
      BeaconList(cells[..k]) + (if cells[k].beacon > 0 then [(k, cells[k].beacon)] else [])
  }

  /** Commands written one after another. */
  function Join(pairs: seq<(nat, int)>): string
  {
    if pairs == [] then ""
    else Join(pairs[..|pairs| - 1]) + BeaconCommand(pairs[|pairs| - 1].0, pairs[|pairs| - 1].1)
  }

  /** The text is the announced pairs written in order. */
  lemma {:induction false} BeaconsTextIsJoin(cells: seq<Cell>)
    ensures BeaconsText(cells) == Join(BeaconList(cells))
  {
    if cells != [] {
      var k := |cells| - 1;
      var prefix := cells[..k];
      BeaconsTextIsJoin(prefix);
      var list := BeaconList(cells);
      if cells[k].beacon > 0 {
        var pair: (nat, int) := (k, cells[k].beacon);
        assert list == BeaconList(prefix) + [pair];
        assert list[..|list| - 1] == BeaconList(prefix);
        assert Join(list) == Join(BeaconList(prefix)) + BeaconCommand(pair.0, pair.1);
        assert BeaconsText(cells) == BeaconsText(prefix) + BeaconCommand(k, cells[k].beacon);
      } else {
        assert list == BeaconList(prefix);
        assert BeaconsText(cells) == BeaconsText(prefix) + "";
      }
    }
  }

  /** The pairs are exactly the cells with a positive beacon, each once, ascending. */
  lemma {:induction false} BeaconListExactly(cells: seq<Cell>)
    ensures forall c: nat, b :: (c, b) in BeaconList(cells) <==> c < |cells| && cells[c].beacon == b && b > 0
    ensures forall i, j :: 0 <= i < j < |BeaconList(cells)| ==> BeaconList(cells)[i].0 < BeaconList(cells)[j].0
  {
    if cells != [] {
      var k := |cells| - 1;
      var prefix := cells[..k];
      BeaconListExactly(prefix);
      var list := BeaconList(cells);
      var tail: seq<(nat, int)> := if cells[k].beacon > 0 then [(k, cells[k].beacon)] else [];
      assert list == BeaconList(prefix) + tail;
      forall c: nat, b
        ensures (c, b) in list <==> c < |cells| && cells[c].beacon == b && b > 0
      {
        if c < k {
          assert prefix[c] == cells[c];
        }
      }
      forall i, j | 0 <= i < j < |list|
        ensures list[i].0 < list[j].0
      {
        if j == |list| - 1 && tail != [] {
          assert list[i] in BeaconList(prefix);
        }
      }
    }
  }
}
