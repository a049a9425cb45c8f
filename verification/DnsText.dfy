/**
 * The grammar of domain names in text, and which names ares_create_query.c puts on
 * the wire. Byte values are written out here: 46 is the dot, 92 the backslash.
 */
module DnsText {
  import opened Bytes
  import opened DnsName

  /**
   * s spells the label l: a backslash stands before any character and must stand before
   * dots and backslashes; only at the end of the name it may stand for itself.
   */
  predicate SpellsLabel(s: seq<Byte>, l: Label, atEnd: bool)
    decreases |s|
  {
    if s == [] then l == []
    else if s[0] == 92 && |s| >= 2 then l != [] && l[0] == s[1] && SpellsLabel(s[2..], l[1..], atEnd)
    else s[0] != 46 && (s[0] == 92 ==> atEnd) && l != [] && l[0] == s[0] && SpellsLabel(s[1..], l[1..], atEnd)
  }

  /** The first k characters of s spell the first label; behind them is the end, or a dot and the other labels. */
  predicate BeginsName(s: seq<Byte>, ls: seq<Label>, k: nat)
    decreases |s|, 0
  {
    && k <= |s| && ls != [] && 1 <= |ls[0]| <= 63 && SpellsLabel(s[..k], ls[0], k == |s|)
    && if k == |s| then |ls| == 1 else s[k] == 46 && IsName(s[k + 1..], ls[1..])
  }

  /** s spells these labels of 1 to 63 bytes with dots between them, and perhaps a final dot. */
  predicate IsName(s: seq<Byte>, ls: seq<Label>)
    decreases |s|, 1
  {
    if ls == [] then s == [] else exists k: nat :: k <= |s| && BeginsName(s, ls, k)
  }

  lemma {:induction false} TakenSpells(s: seq<Byte>)
    ensures var (l, rest) := TakeLabel(s);
            && |rest| <= |s| && s[|s| - |rest|..] == rest
            && SpellsLabel(s[..|s| - |rest|], l, rest == [])
    decreases |s|
  {
    var (l, rest) := TakeLabel(s);
    if s == [] || s[0] == DOT {
      assert s[..|s| - |rest|] == [];
    } else {
      var n := if s[0] == BACKSLASH && |s| >= 2 then 2 else 1;
      TakenSpells(s[n..]);
      var text, later := s[..|s| - |rest|], s[n..][..|s[n..]| - |rest|];
      assert text[n..] == later && l[1..] == TakeLabel(s[n..]).0;
      assert text[0] == s[0] && (n == 2 ==> text[1] == s[1]);
    }
  }

  lemma {:induction false} SpelledIsTaken(s: seq<Byte>, k: nat, l: Label)
    requires k <= |s| && SpellsLabel(s[..k], l, k == |s|) && (k < |s| ==> s[k] == 46)
    ensures TakeLabel(s) == (l, s[k..])
    decreases |s|
  {
    if k > 0 {
      var text := s[..k];
      var n := if s[0] == 92 && k >= 2 then 2 else 1;
      assert text[0] == s[0] && text[n..] == s[n..][..k - n] && s[n..][k - n..] == s[k..];
      SpelledIsTaken(s[n..], k - n, l[1..]);
      assert l == [l[0]] + l[1..];
    }
  }

  lemma {:induction false} ParsedIsName(s: seq<Byte>)
    requires ParseLabels(s).Some?
    ensures IsName(s, ParseLabels(s).value)
    decreases |s|
  {
    if s != [] {
      var (l, rest) := TakeLabel(s);
      TakenSpells(s);
      hide SpellsLabel, TakeLabel;
      var k, ls := |s| - |rest|, ParseLabels(s).value;
      if rest == [] {
        assert ls == [l];
        assert BeginsName(s, ls, k);
      } else {
        ParsedIsName(rest[1..]);
        assert ls == [l] + ParseLabels(rest[1..]).value && ls[1..] == ParseLabels(rest[1..]).value;
        assert s[k + 1..] == rest[1..] && s[k] == rest[0];
        assert BeginsName(s, ls, k);
      }
    }
  }

  lemma {:induction false} NameIsParsed(s: seq<Byte>, ls: seq<Label>)
    requires IsName(s, ls)
    ensures ParseLabels(s) == Some(ls)
    decreases |s|
  {
    if ls != [] {
      var k: nat :| k <= |s| && BeginsName(s, ls, k);
      SpelledIsTaken(s, k, ls[0]);
      FirstSpelled(s, k, ls[0]);
      hide SpellsLabel, TakeLabel;
      if k == |s| {
        assert ls == [ls[0]];
      } else {
        NameIsParsed(s[k + 1..], ls[1..]);
        assert s[k..][1..] == s[k + 1..];
        assert ls == [ls[0]] + ls[1..];
      }
    }
  }

  lemma FirstSpelled(s: seq<Byte>, k: nat, l: Label)
    requires k <= |s| && l != [] && SpellsLabel(s[..k], l, k == |s|)
    ensures s != [] && s[0] != DOT
  {
    assert s[..k] != [];
  }

  /** A text is accepted as the name of these labels if and only if it spells them. */
  lemma ParseExactly(s: seq<Byte>, ls: seq<Label>)
    ensures ParseLabels(s) == Some(ls) <==> IsName(s, ls)
  {
    hide ParseLabels, IsName;
    if ParseLabels(s) == Some(ls) {
      ParsedIsName(s);
    }
    if IsName(s, ls) {
      NameIsParsed(s, ls);
    }
  }

  /** The root may be written as a dot alone. */
  predicate Names(name: seq<Byte>, ls: seq<Label>) {
    if name == [46] then ls == [] else IsName(name, ls)
  }

  lemma NamesExactly(name: seq<Byte>, ls: seq<Label>)
    ensures LabelsOf(name) == Some(ls) <==> Names(name, ls)
  {
    ParseExactly(if name == [46] then [] else name, ls);
    assert IsName([], ls) <==> ls == [];
  }

  /** A name is put on the wire if and only if it is no onion name and spells labels that take at most 255 bytes there. */
  lemma EncodeExactly(name: seq<Byte>, wire: seq<Byte>)
    ensures Encode(name) == Encoded(wire) <==>
              !IsOnion(name) && |wire| <= 255 && exists ls: seq<Label> :: Names(name, ls) && Fits(ls) && Wire(ls) == wire
  {
    hide ParseLabels, IsName, IsOnion, Wire, Names, LabelsOf;
    forall ls: seq<Label> ensures LabelsOf(name) == Some(ls) <==> Names(name, ls) { NamesExactly(name, ls); }
    if LabelsOf(name).Some? {
      var ls := LabelsOf(name).value;
      LabelsFit(name);
      assert Names(name, ls) && Fits(ls);
    }
  }

  predicate Fits(ls: seq<Label>) {
    forall i :: 0 <= i < |ls| ==> |ls[i]| <= 63
  }

  lemma LabelsFit(name: seq<Byte>)
    requires LabelsOf(name).Some?
    ensures Fits(LabelsOf(name).value)
  {
    hide ParseLabels;
  }

  /** "www.a" on the wire. */
  lemma WireOfTwo()
    ensures Wire([[119, 119, 119], [97]]) == [3, 119, 119, 119, 1, 97, 0]
  {
    var ls: seq<Label> := [[119, 119, 119], [97]];
    assert ls[1..] == [[97]] && ls[1..][1..] == [];
    assert WireLabels(ls[1..]) == [1] + [97] + [];
  }
}
