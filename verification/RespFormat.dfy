/**
 * What a format of redisFormatCommand (hiredis.c) is sent as: templates of literal
 * bytes, per cent signs, strings and printf conversions, told from their texts.
 * Byte values are written out here.
 */
module RespFormat {
  import opened Bytes
  import opened Numbers
  import opened RespCommand

  // ---------------------------------------------------------------------
  // Conversions.

  const FLAGS: set<Byte> := {35, 48, 45, 43, 32}
  const INTEGERS: set<Byte> := {100, 105, 111, 117, 120, 88}
  const DOUBLES: set<Byte> := {101, 69, 102, 70, 103, 71, 97, 65}
  /** hh h l ll, or none. */
  const SIZES: set<seq<Byte>> := {[], [104], [104, 104], [108], [108, 108]}

  predicate AllFlags(s: seq<Byte>) {
    forall i :: 0 <= i < |s| ==> s[i] in FLAGS
  }

  predicate Numeric(s: seq<Byte>) {
    forall i :: 0 <= i < |s| ==> 48 <= s[i] <= 57
  }

  /** Flags, width and precision; these may be left out, and digits may be missing behind the point. */
  datatype Front = Front(flags: seq<Byte>, width: seq<Byte>, precision: Option<seq<Byte>>) {
    predicate Proper() {
      AllFlags(flags) && Numeric(width) && (precision.Some? ==> Numeric(precision.value))
    }

    function Written(): seq<Byte> {
      flags + width + if precision.Some? then [46] + precision.value else []
    }
  }

  /** A conversion of printf, without its per cent sign. */
  datatype Spec = Spec(front: Front, size: seq<Byte>, conversion: Byte) {
    predicate Proper() {
      front.Proper() && size in SIZES && (conversion in INTEGERS || (size == [] && conversion in DOUBLES))
    }

    function Written(): seq<Byte> {
      front.Written() + (size + [conversion])
    }
  }

  /** t does not go on with a flag, a digit or a point. */
  predicate Stops(t: seq<Byte>) {
    t == [] || (t[0] !in FLAGS && !(48 <= t[0] <= 57) && t[0] != 46)
  }

  lemma {:induction false} FlagsSkipped(flags: seq<Byte>, t: seq<Byte>)
    requires AllFlags(flags)
    ensures AfterFlags(flags + t) == AfterFlags(t)
  {
    if flags == [] {
      assert flags + t == t;
    } else {
      FlagsSkipped(flags[1..], t);
      assert (flags + t)[1..] == flags[1..] + t;
    }
  }

  lemma {:induction false} DigitsSkipped(digits: seq<Byte>, t: seq<Byte>)
    requires Numeric(digits)
    ensures AfterDigits(digits + t) == AfterDigits(t)
  {
    if digits == [] {
      assert digits + t == t;
    } else {
      DigitsSkipped(digits[1..], t);
      assert (digits + t)[1..] == digits[1..] + t;
    }
  }

  /** The width may begin with zeros, which are read as flags. */
  lemma {:induction false} WidthSkipped(width: seq<Byte>, t: seq<Byte>)
    requires Numeric(width) && (t == [] || (t[0] !in FLAGS && !(48 <= t[0] <= 57)))
    ensures AfterDigits(AfterFlags(width + t)) == t
  {
    if width == [] {
      assert width + t == t;
    } else {
      assert (width + t)[1..] == width[1..] + t;
      if width[0] == 48 {
        WidthSkipped(width[1..], t);
      } else {
        assert AfterFlags(width + t) == width + t;
        DigitsSkipped(width, t);
      }
    }
  }

  lemma FrontSkipped(f: Front, t: seq<Byte>)
    requires f.Proper() && Stops(t)
    ensures AfterSpec(f.Written() + t) == t
  {
    var tail := if f.precision.Some? then [46] + f.precision.value + t else t;
    assert f.Written() + t == f.flags + (f.width + tail);
    FlagsSkipped(f.flags, f.width + tail);
    WidthSkipped(f.width, tail);
    if f.precision.Some? {
      assert tail[1..] == f.precision.value + t;
      DigitsSkipped(f.precision.value, t);
    }
  }

  lemma {:induction false} FlagsTaken(s: seq<Byte>) returns (flags: seq<Byte>)
    ensures AllFlags(flags) && s == flags + AfterFlags(s)
  {
    flags := [];
    if s != [] && IsFlag(s[0]) {
      var later := FlagsTaken(s[1..]);
      flags := [s[0]] + later;
    }
  }

  lemma {:induction false} DigitsTaken(s: seq<Byte>) returns (digits: seq<Byte>)
    ensures Numeric(digits) && s == digits + AfterDigits(s)
  {
    digits := [];
    if s != [] && IsDigit(s[0]) {
      var later := DigitsTaken(s[1..]);
      digits := [s[0]] + later;
    }
  }

  lemma FrontTaken(s: seq<Byte>) returns (f: Front)
    ensures f.Proper() && s == f.Written() + AfterSpec(s)
  {
    var flags := FlagsTaken(s);
    var q := AfterFlags(s);
    var width := DigitsTaken(q);
    var p := AfterDigits(q);
    hide AfterFlags, AfterDigits;
    Assoc(flags, width, p);
    f := Front(flags, width, None);
    if p != [] && p[0] == POINT {
      var digits := DigitsTaken(p[1..]);
      f := Front(flags, width, Some(digits));
      PointTaken(flags + width, p, digits, AfterDigits(p[1..]));
    } else {
      assert flags + width + [] == flags + width;
    }
  }

  lemma PointTaken(front: seq<Byte>, p: seq<Byte>, digits: seq<Byte>, rest: seq<Byte>)
    requires p != [] && p[0] == 46 && p[1..] == digits + rest
    ensures front + p == front + ([46] + digits) + rest
  {
    assert p == [46] + p[1..];
  }

  lemma SizedExactly(size: seq<Byte>, conversion: Byte, rest: seq<Byte>)
    requires size in SIZES && (conversion in INTEGERS || (size == [] && conversion in DOUBLES))
    ensures var p := size + [conversion] + rest;
            Stops(p) && forall s :: AfterSpec(s) == p ==> ConversionOf(s) == Valid(rest)
  {
    var p := size + [conversion] + rest;
    if size == [] {
      assert p[0] == conversion && p[1..] == rest;
    } else if |size| == 1 {
      assert p[0] == size[0] && p[1] == conversion && p[1..][1..] == rest;
    } else {
      assert p[0] == size[0] && p[1] == size[1] && p[2..][0] == conversion && p[2..][1..] == rest;
    }
  }

  lemma SizeTaken(s: seq<Byte>) returns (size: seq<Byte>, conversion: Byte)
    requires ConversionOf(s).Valid?
    ensures size in SIZES && (conversion in INTEGERS || (size == [] && conversion in DOUBLES))
    ensures AfterSpec(s) == size + [conversion] + ConversionOf(s).rest
  {
    var p := AfterSpec(s);
    hide AfterSpec;
    if IsIntConversion(p[0]) || IsDoubleConversion(p[0]) {
      size, conversion := [], p[0];
    } else if |p| > 1 && p[1] == p[0] {
      size, conversion := [p[0], p[1]], p[2];
      assert size == [104, 104] || size == [108, 108];
    } else {
      size, conversion := [p[0]], p[1];
      assert size == [104] || size == [108];
    }
  }

  lemma SpecTaken(s: seq<Byte>) returns (c: Spec)
    requires ConversionOf(s).Valid?
    ensures c.Proper() && s == c.Written() + ConversionOf(s).rest
  {
    var f := FrontTaken(s);
    var size, conversion := SizeTaken(s);
    hide AfterSpec, ConversionOf;
    c := Spec(f, size, conversion);
    Assoc(f.Written(), size + [conversion], ConversionOf(s).rest);
  }

  lemma SpecRead(c: Spec, rest: seq<Byte>)
    requires c.Proper()
    ensures ConversionOf(c.Written() + rest) == Valid(rest)
  {
    hide AfterSpec, ConversionOf, Front.Written;
    SizedExactly(c.size, c.conversion, rest);
    FrontSkipped(c.front, c.size + [c.conversion] + rest);
    Assoc(c.front.Written(), c.size + [c.conversion], rest);
  }

  /** The conversions that are found are those of printf, and what follows them is left. */
  lemma ConversionExactly(s: seq<Byte>, rest: seq<Byte>)
    ensures ConversionOf(s) == Valid(rest) <==> exists c: Spec :: c.Proper() && s == c.Written() + rest
  {
    hide ConversionOf;
    if ConversionOf(s) == Valid(rest) {
      var c := SpecTaken(s);
    }
    forall c: Spec | c.Proper() && s == c.Written() + rest
      ensures ConversionOf(s) == Valid(rest)
    {
      SpecRead(c, rest);
    }
  }

  /** The end of the format comes first exactly where nothing but flags, width and precision is left. */
  lemma CutShortExactly(s: seq<Byte>)
    ensures ConversionOf(s) == CutShort <==> exists f: Front :: f.Proper() && s == f.Written()
  {
    if ConversionOf(s) == CutShort {
      var f := FrontTaken(s);
      assert s == f.Written();
    }
    forall f: Front | f.Proper() && s == f.Written()
      ensures ConversionOf(s) == CutShort
    {
      FrontSkipped(f, []);
      assert f.Written() + [] == s;
    }
  }

  /** s begins with a conversion that is n bytes long. */
  ghost predicate HasSpec(s: seq<Byte>, n: nat) {
    n <= |s| && exists c: Spec :: c.Proper() && s[..n] == c.Written()
  }

  ghost predicate OnlyFront(s: seq<Byte>) {
    exists f: Front :: f.Proper() && s == f.Written()
  }

  lemma HasSpecExactly(s: seq<Byte>, n: nat)
    ensures HasSpec(s, n) <==> n <= |s| && ConversionOf(s) == Valid(s[n..])
  {
    hide ConversionOf;
    if n <= |s| {
      ConversionExactly(s, s[n..]);
      if HasSpec(s, n) {
        var c: Spec :| c.Proper() && s[..n] == c.Written();
        assert s == c.Written() + s[n..];
      }
      if ConversionOf(s) == Valid(s[n..]) {
        var c: Spec :| c.Proper() && s == c.Written() + s[n..];
        assert s[..n] == c.Written();
      }
    }
  }

  lemma OnlyFrontExactly(s: seq<Byte>)
    ensures OnlyFront(s) <==> ConversionOf(s) == CutShort
  {
    CutShortExactly(s);
  }

  lemma SuffixLeft(s: seq<Byte>) returns (rest: seq<Byte>)
    requires ConversionOf(s).Valid?
    ensures ConversionOf(s) == Valid(rest) && |rest| <= |s| && rest == s[|s| - |rest|..]
  {
    rest := ConversionOf(s).rest;
    hide ConversionOf;
    var c := SpecTaken(s);
    assert s == c.Written() + rest;
  }

  /**
   * One conversion with its per cent sign, by its text. Up to 13 bytes it is replaced by
   * its value; a longer one takes its argument, too, but only two of its bytes are left
   * out; and a format that ends inside a short one leads beyond its end.
   */
  lemma StepExactly(format: seq<Byte>)
    requires |format| >= 2 && format[0] == 37 && format[1] !in {37, 98, 115}
    ensures forall n: nat :: HasSpec(format[1..], n) ==>
              StepOf(format) == if n < 13 then Takes(format[1..][n..], true) else Takes(format[2..], false)
    ensures OnlyFront(format[1..]) ==>
              StepOf(format) == if |format| < 13 then Fails(PastEnd) else Takes(format[2..], false)
    ensures !OnlyFront(format[1..]) && (forall n: nat :: !HasSpec(format[1..], n)) ==> StepOf(format) == Fails(FormatError)
  {
    var s := format[1..];
    hide ConversionOf, HasSpec, OnlyFront;
    forall n: nat ensures HasSpec(s, n) <==> n <= |s| && ConversionOf(s) == Valid(s[n..]) {
      HasSpecExactly(s, n);
    }
    OnlyFrontExactly(s);
    if ConversionOf(s).Valid? {
      var rest := SuffixLeft(s);
      assert HasSpec(s, |s| - |rest|);
    }
  }

  /** The value of a conversion stands in its place. */
  lemma ValueIsPutIn(c: Spec, rest: seq<Byte>)
    requires c.Proper() && 1 + |c.Written()| < 14 && c.Written()[0] !in {37, 98, 115}
    ensures TakesArgument([37] + c.Written() + rest) && StepOf([37] + c.Written() + rest) == Takes(rest, true)
  {
    var format := [37] + c.Written() + rest;
    hide ConversionOf, Spec.Written;
    assert format[1..] == c.Written() + rest;
    SpecRead(c, rest);
  }

  // ---------------------------------------------------------------------
  // Templates.

  /** What a word of a format is made of. */
  datatype Token = Literal(byte: Byte) | PerCent | Str | Bin | Print(spec: Spec) {
    /** A literal is no space and no per cent sign; a conversion has at most 13 bytes. */
    predicate Proper() {
      match this
      case Literal(b) => b != 32 && b != 37
      case Print(c) => c.Proper() && 1 + |c.Written()| < 14
      case _ => true
    }

    function Written(): seq<Byte> {
      match this
      case Literal(b) => [b]
      case PerCent => [37, 37]
      case Str => [37, 115]
      case Bin => [37, 98]
      case Print(c) => [37] + c.Written()
    }

    /** How many arguments it takes. */
    function Needs(): nat {
      if Literal? || PerCent? then 0 else 1
    }

    function Value(args: seq<seq<Byte>>): seq<Byte>
      requires Needs() <= |args|
    {
      match this
      case Literal(b) => [b]
      case PerCent => [37]
      case _ => args[0]
    }
  }

  lemma SpecBegins(c: Spec)
    requires c.Proper()
    ensures c.Written() != [] && c.Written()[0] !in {37, 98, 115}
  {
    var s := c.Written();
    var f := c.front;
    if f.flags != [] {
      assert s[0] == f.flags[0];
    } else if f.width != [] {
      assert s[0] == f.width[0];
    } else if f.precision.Some? {
      assert s[0] == 46;
    } else if c.size != [] {
      assert s[0] == c.size[0];
    } else {
      assert s[0] == c.conversion;
    }
  }

  lemma StepOfToken(t: Token, rest: seq<Byte>)
    requires t.Proper() && t.Needs() == 1
    ensures TakesArgument(t.Written() + rest) && StepOf(t.Written() + rest) == Takes(rest, true)
  {
    hide ConversionOf, Spec.Written;
    if t.Print? {
      SpecBegins(t.spec);
      ValueIsPutIn(t.spec, rest);
    } else {
      assert (t.Written() + rest)[2..] == rest;
    }
  }

  /** A token is read as one piece: its value. */
  lemma TokenIsRead(t: Token, rest: seq<Byte>, args: seq<seq<Byte>>)
    requires t.Proper() && t.Needs() <= |args| && Fits(rest, args[t.Needs()..])
    ensures var format := t.Written() + rest;
            && Fits(format, args) && EndingOf(format) == EndingOf(rest)
            && Pieces(format, args) == [Text(t.Value(args))] + Pieces(rest, args[t.Needs()..])
  {
    hide StepOf;
    var format := t.Written() + rest;
    if t.Needs() == 1 {
      StepOfToken(t, rest);
    } else {
      assert args[0..] == args;
      assert format[|t.Written()|..] == rest;
    }
  }

  lemma SpaceIsRead(rest: seq<Byte>, args: seq<seq<Byte>>)
    requires Fits(rest, args)
    ensures var format := [32] + rest;
            Fits(format, args) && EndingOf(format) == EndingOf(rest) && Pieces(format, args) == [Gap] + Pieces(rest, args)
  {
    assert ([32] + rest)[1..] == rest;
  }

  function Spaces(n: nat): (s: seq<Byte>)
    ensures |s| == n
  {
    if n == 0 then [] else [32] + Spaces(n - 1)
  }

  function TokensWritten(tokens: seq<Token>): seq<Byte> {
    if tokens == [] then [] else tokens[0].Written() + TokensWritten(tokens[1..])
  }

  function Needed(tokens: seq<Token>): nat {
    if tokens == [] then 0 else tokens[0].Needs() + Needed(tokens[1..])
  }

  /** The literals, per cent signs and values of a word, joined up. */
  function Rendered(tokens: seq<Token>, args: seq<seq<Byte>>): seq<Byte>
    requires Needed(tokens) <= |args|
  {
    if tokens == [] then []
    else tokens[0].Value(args) + Rendered(tokens[1..], args[tokens[0].Needs()..])
  }

  /** A word of a format and the spaces behind it. */
  datatype Slot = Slot(tokens: seq<Token>, spaces: nat)

  function SlotsWritten(slots: seq<Slot>): seq<Byte> {
    if slots == [] then []
    else TokensWritten(slots[0].tokens) + (Spaces(slots[0].spaces) + SlotsWritten(slots[1..]))
  }

  function SlotsNeeded(slots: seq<Slot>): nat {
    if slots == [] then 0 else Needed(slots[0].tokens) + SlotsNeeded(slots[1..])
  }

  predicate ProperTokens(tokens: seq<Token>) {
    forall i :: 0 <= i < |tokens| ==> tokens[i].Proper()
  }

  /** No word is empty, and two words have a space between them. */
  predicate ProperSlots(slots: seq<Slot>) {
    forall i :: 0 <= i < |slots| ==>
      slots[i].tokens != [] && ProperTokens(slots[i].tokens) && (i < |slots| - 1 ==> slots[i].spaces > 0)
  }

  /** One argument of the command for each word. */
  function Sent(slots: seq<Slot>, args: seq<seq<Byte>>): seq<seq<Byte>>
    requires SlotsNeeded(slots) <= |args|
  {
    if slots == [] then []
    else [Rendered(slots[0].tokens, args)] + Sent(slots[1..], args[Needed(slots[0].tokens)..])
  }

  lemma {:induction false} SpacesAreRead(n: nat, rest: seq<Byte>, args: seq<seq<Byte>>)
    requires Fits(rest, args)
    ensures var format := Spaces(n) + rest;
            && Fits(format, args) && EndingOf(format) == EndingOf(rest)
            && Words(Pieces(format, args)) == Words(Pieces(rest, args))
            && (n > 0 ==> Pieces(format, args) != [] && Pieces(format, args)[0] == Gap)
  {
    hide Pieces, Fits, EndingOf;
    if n == 0 {
      assert Spaces(n) + rest == rest;
    } else {
      SpacesAreRead(n - 1, rest, args);
      SpaceIsRead(Spaces(n - 1) + rest, args);
      Assoc([32], Spaces(n - 1), rest);
    }
  }

  /** A word, as far as it has been collected, goes on with its tokens up to the next space or the end. */
  lemma {:induction false} TokensAreRead(cur: seq<Byte>, touched: bool, tokens: seq<Token>, rest: seq<Byte>, args: seq<seq<Byte>>)
    requires ProperTokens(tokens) && Needed(tokens) <= |args| && Fits(rest, args[Needed(tokens)..])
    requires touched || (tokens != [] && cur == [])
    requires var later := Pieces(rest, args[Needed(tokens)..]); later == [] || later[0] == Gap
    ensures var format := TokensWritten(tokens) + rest;
            && Fits(format, args) && EndingOf(format) == EndingOf(rest)
            && WordsAfter(cur, touched, Pieces(format, args)) ==
                 [cur + Rendered(tokens, args)] + Words(Pieces(rest, args[Needed(tokens)..]))
    decreases |tokens|
  {
    hide Pieces, Fits, EndingOf, Words, WordsAfter;
    if tokens == [] {
      assert TokensWritten(tokens) + rest == rest && args[0..] == args;
      assert cur + Rendered(tokens, args) == cur;
      WordComplete(cur, Pieces(rest, args));
    } else {
      var t, more := tokens[0], tokens[1..];
      var args' := args[t.Needs()..];
      assert args'[Needed(more)..] == args[Needed(tokens)..];
      var format' := TokensWritten(more) + rest;
      TokensAreRead(cur + t.Value(args), true, more, rest, args');
      TokenIsRead(t, format', args);
      Assoc(t.Written(), TokensWritten(more), rest);
      TakeText(cur, touched, Pieces(t.Written() + format', args));
      assert ([Text(t.Value(args))] + Pieces(format', args'))[1..] == Pieces(format', args');
      Assoc(cur, t.Value(args), Rendered(more, args'));
    }
  }

  lemma WordComplete(cur: seq<Byte>, later: seq<Piece>)
    requires later == [] || later[0] == Gap
    ensures WordsAfter(cur, true, later) == [cur] + Words(later)
  {
    assert later[..0] == [] && later[0..] == later && cur + [] == cur;
  }

  /**
   * The command of a template has one argument for each of its words: the literals, per
   * cent signs and values of the word, in their order, whatever the values are.
   */
  lemma {:induction false} SlotsAreSent(slots: seq<Slot>, args: seq<seq<Byte>>)
    requires ProperSlots(slots) && SlotsNeeded(slots) <= |args|
    ensures var format := SlotsWritten(slots);
            && Fits(format, args) && EndingOf(format) == Complete
            && Words(Pieces(format, args)) == Sent(slots, args)
    decreases |slots|
  {
    if slots != [] {
      hide Pieces, Fits, EndingOf, Words, WordsAfter, ProperTokens;
      var tokens, spaces, more := slots[0].tokens, slots[0].spaces, slots[1..];
      var args' := args[Needed(tokens)..];
      SlotsAreSent(more, args');
      SpacesAreRead(spaces, SlotsWritten(more), args');
      var rest := Spaces(spaces) + SlotsWritten(more);
      if spaces == 0 {
        assert more == [] && rest == [];
        NothingIsRead(args');
      }
      TokensAreRead([], false, tokens, rest, args);
      WordsStart(Pieces(TokensWritten(tokens) + rest, args));
      assert [] + Rendered(tokens, args) == Rendered(tokens, args);
    }
  }

  lemma NothingIsRead(args: seq<seq<Byte>>)
    ensures Fits([], args) && Pieces([], args) == []
  {
  }

  /** The same with spaces in front. */
  lemma TemplateIsSent(lead: nat, slots: seq<Slot>, args: seq<seq<Byte>>)
    requires ProperSlots(slots) && SlotsNeeded(slots) <= |args|
    ensures var format := Spaces(lead) + SlotsWritten(slots);
            && Fits(format, args) && EndingOf(format) == Complete
            && Words(Pieces(format, args)) == Sent(slots, args)
  {
    SlotsAreSent(slots, args);
    hide Pieces, Fits, EndingOf, Words;
    SpacesAreRead(lead, SlotsWritten(slots), args);
  }

  function Literals(text: seq<Byte>): (tokens: seq<Token>)
    ensures |tokens| == |text|
  {
    seq(|text|, i requires 0 <= i < |text| => Literal(text[i]))
  }

  lemma {:induction false} LiteralsStand(text: seq<Byte>, args: seq<seq<Byte>>)
    ensures TokensWritten(Literals(text)) == text && Needed(Literals(text)) == 0
    ensures Rendered(Literals(text), args) == text
  {
    if text != [] {
      assert Literals(text)[1..] == Literals(text[1..]);
      LiteralsStand(text[1..], args);
      assert args[0..] == args;
    }
  }

  /** The last slot of a template: %s. */
  lemma StringSlot(value: seq<Byte>)
    ensures var last := [Slot([Str], 0)];
            && SlotsWritten(last) == [37, 115] && ProperSlots(last) && SlotsNeeded(last) == 1
            && Sent(last, [value]) == [value]
  {
    var last := [Slot([Str], 0)];
    assert last[1..] == [] && [Str][1..] == [];
    assert TokensWritten([Str]) == [37, 115] + [];
    assert Rendered([Str], [value]) == value + [] == value;
    assert SlotsWritten(last) == [37, 115] + (Spaces(0) + []);
    assert Sent(last, [value]) == [value] + [];
  }

  lemma SlotAhead(slot: Slot, more: seq<Slot>, args: seq<seq<Byte>>)
    requires Needed(slot.tokens) == 0 && SlotsNeeded(more) <= |args|
    ensures SlotsWritten([slot] + more) == TokensWritten(slot.tokens) + (Spaces(slot.spaces) + SlotsWritten(more))
    ensures SlotsNeeded([slot] + more) == SlotsNeeded(more)
    ensures Sent([slot] + more, args) == [Rendered(slot.tokens, args)] + Sent(more, args)
  {
    assert ([slot] + more)[1..] == more && args[0..] == args;
  }

  /** A word, a space and %s, as in "GET %s": the word and the value. */
  lemma WordAndString(word: seq<Byte>, value: seq<Byte>)
    requires word != [] && 32 !in word && 37 !in word
    ensures var format := word + [32, 37, 115];
            && Fits(format, [value]) && EndingOf(format) == Complete
            && Words(Pieces(format, [value])) == [word, value]
  {
    hide Fits, EndingOf, Words, Pieces, TokensWritten, SlotsWritten, Sent;
    var first, last := Slot(Literals(word), 1), [Slot([Str], 0)];
    LiteralsStand(word, [value]);
    StringSlot(value);
    SlotAhead(first, last, [value]);
    assert Spaces(1) == [32] + Spaces(0) == [32];
    assert word + ([32] + [37, 115]) == word + [32, 37, 115];
    SlotsAreSent([first] + last, [value]);
  }
}
