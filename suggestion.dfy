/**
 * The two pure text parsers of the resolver: the labelled-line reader that
 * turns an advisor answer into a suggestion, and `parse_coordinates`, which
 * reads the "x,y" of a PATH field.
 */
module SuggestionText {
  import opened Wrappers
  import opened Text
  import opened Model

  /** The four labelled fields of an advisor answer. */
  datatype Field = AltitudeField | DelayField | PathField | ReasonField

  function Label(f: Field): string {
    match f
    case AltitudeField => "ALTITUDE:"
    case DelayField => "DELAY:"
    case PathField => "PATH:"
    case ReasonField => "REASON:"
  }

  /** The `if`/`elif` chain: the first label, in the order above, that starts the line. */
  function LineField(line: string): (r: Option<Field>)
    ensures r.Some? ==> StartsWith(line, Label(r.value))
    ensures r.None? ==> forall f :: !StartsWith(line, Label(f))
  {
    if StartsWith(line, Label(AltitudeField)) then Some(AltitudeField)
    else if StartsWith(line, Label(DelayField)) then Some(DelayField)
    else if StartsWith(line, Label(PathField)) then Some(PathField)
    else if StartsWith(line, Label(ReasonField)) then Some(ReasonField)
    else None
  }

  /** `line.replace(label, '').strip()`. */
  function FieldText(line: string, f: Field): string {
    Strip(RemoveAll(line, Label(f)))
  }

  function Get(s: Suggestion, f: Field): Option<string> {
    match f
    case AltitudeField => s.altitude
    case DelayField => s.delay
    case PathField => s.path
    case ReasonField => s.reason
  }

  /** `suggestion[key] = value`: only that field changes. */
  function Put(s: Suggestion, f: Field, v: string): (r: Suggestion)
    ensures Get(r, f) == Some(v)
    ensures forall g :: g != f ==> Get(r, g) == Get(s, g)
  {
    match f
    case AltitudeField => s.(altitude := Some(v))
    case DelayField => s.(delay := Some(v))
    case PathField => s.(path := Some(v))
    case ReasonField => s.(reason := Some(v))
  }

  const NoSuggestion := Suggestion(None, None, None, None)

  /** The four labels begin with four different letters, so at most one of them starts a line. */
  lemma AtMostOneLabel(line: string)
    ensures forall f, g :: StartsWith(line, Label(f)) && StartsWith(line, Label(g)) ==> f == g
  {
    forall f, g | StartsWith(line, Label(f)) && StartsWith(line, Label(g)) ensures f == g {
      assert line[0] == Label(f)[0] == Label(g)[0];
    }
  }

  /**
   * What one line contributes: nothing when no label starts it; otherwise
   * the one field whose label starts it, with the line's text once every
   * occurrence of that label is removed and the white space stripped.
   */
  function LineEntry(line: string): (e: Option<(Field, string)>)
    ensures e.None? <==> forall f :: !StartsWith(line, Label(f))
    ensures e.Some? ==> StartsWith(line, Label(e.value.0)) && e.value.1 == Strip(RemoveAll(line, Label(e.value.0)))
    ensures forall f :: StartsWith(line, Label(f)) ==> e.Some? && e.value.0 == f
  {
    AtMostOneLabel(line);
    match LineField(line)
    case None => None
    case Some(f) => Some((f, FieldText(line, f)))
  }

  /** The loop over the lines, as a fold over their entries: each entry overwrites its field. */
  function ParseEntries(es: seq<Option<(Field, string)>>): Suggestion {
    if es == [] then NoSuggestion
    else
      var s := ParseEntries(es[..|es| - 1]);
      match es[|es| - 1]
      case None => s
      case Some((f, v)) => Put(s, f, v)
  }

  function Entries(lines: seq<string>): (es: seq<Option<(Field, string)>>)
    ensures |es| == |lines|
    ensures forall i :: 0 <= i < |lines| ==> es[i] == LineEntry(lines[i])
  {
    seq(|lines|, i requires 0 <= i < |lines| => LineEntry(lines[i]))
  }

  function ParseLines(lines: seq<string>): Suggestion {
    ParseEntries(Entries(lines))
  }

  /**
   * The structured parts of an answer: its lines split on `'\n'`, read in
   * order; a field is present exactly when some line carries its label.
   */
  function ParseSuggestion(text: string): (r: Suggestion)
    ensures forall f :: Get(r, f).Some? <==> exists line :: line in Split(text, '\n') && LineField(line) == Some(f)
  {
    var lines := Split(text, '\n');
    FieldsSetIffLabelled(lines);
    ParseLines(lines)
  }

  /** Entry `i` sets field `f`. */
  predicate Sets(es: seq<Option<(Field, string)>>, i: int, f: Field) {
    0 <= i < |es| && es[i].Some? && es[i].value.0 == f
  }

  /** The last entry sets field `f` when it names `f` and leaves it alone otherwise. */
  lemma ParseEntriesStep(es: seq<Option<(Field, string)>>, f: Field)
    requires es != []
    ensures Get(ParseEntries(es), f) ==
      if Sets(es, |es| - 1, f) then Some(es[|es| - 1].value.1) else Get(ParseEntries(es[..|es| - 1]), f)
  {
  }

  lemma {:induction false} FieldSetHasEntry(es: seq<Option<(Field, string)>>, f: Field) returns (i: nat)
    requires Get(ParseEntries(es), f).Some?
    ensures Sets(es, i, f)
  {
    ParseEntriesStep(es, f);
    var init := es[..|es| - 1];
    if Sets(es, |es| - 1, f) {
      i := |es| - 1;
    } else {
      i := FieldSetHasEntry(init, f);
      assert init[i] == es[i];
    }
  }

  lemma {:induction false} EntrySetsField(es: seq<Option<(Field, string)>>, f: Field, i: nat)
    requires Sets(es, i, f)
    ensures Get(ParseEntries(es), f).Some?
  {
    ParseEntriesStep(es, f);
    var init := es[..|es| - 1];
    if !Sets(es, |es| - 1, f) {
      assert init[i] == es[i];
      EntrySetsField(init, f, i);
    }
  }

  lemma {:induction false} LastEntryWins(es: seq<Option<(Field, string)>>, f: Field, i: nat)
    requires Sets(es, i, f)
    requires forall j :: i < j < |es| ==> !Sets(es, j, f)
    ensures Get(ParseEntries(es), f) == Some(es[i].value.1)
  {
    ParseEntriesStep(es, f);
    var init := es[..|es| - 1];
    if i < |es| - 1 {
      assert init[i] == es[i];
      forall j | i < j < |init| ensures !Sets(init, j, f) {
        assert init[j] == es[j] && !Sets(es, j, f);
      }
      LastEntryWins(init, f, i);
    }
  }

  /** A field is set exactly when some line carries its label (ahead of any label before it in the chain). */
  lemma FieldSetIffLabelled(lines: seq<string>, f: Field)
    ensures Get(ParseLines(lines), f).Some? <==> exists i :: 0 <= i < |lines| && LineField(lines[i]) == Some(f)
  {
    var es := Entries(lines);
    if Get(ParseLines(lines), f).Some? {
      var i := FieldSetHasEntry(es, f);
      assert LineField(lines[i]) == Some(f);
    }
    if exists i :: 0 <= i < |lines| && LineField(lines[i]) == Some(f) {
      var i :| 0 <= i < |lines| && LineField(lines[i]) == Some(f);
      assert Sets(es, i, f);
      EntrySetsField(es, f, i);
    }
  }

  lemma FieldsSetIffLabelled(lines: seq<string>)
    ensures forall f :: Get(ParseLines(lines), f).Some? <==> exists line :: line in lines && LineField(line) == Some(f)
  {
    forall f ensures Get(ParseLines(lines), f).Some? <==> exists line :: line in lines && LineField(line) == Some(f) {
      FieldSetIffLabelled(lines, f);
    }
  }

  /** The value kept for a field is the text of the last line carrying its label. */
  lemma LastLabelledLineWins(lines: seq<string>, f: Field, i: nat)
    requires i < |lines| && LineField(lines[i]) == Some(f)
    requires forall j :: i < j < |lines| ==> LineField(lines[j]) != Some(f)
    ensures Get(ParseLines(lines), f) == Some(FieldText(lines[i], f))
  {
    var es := Entries(lines);
    assert Sets(es, i, f);
    forall j | i < j < |es| ensures !Sets(es, j, f) {
      assert LineField(lines[j]) != Some(f);
    }
    LastEntryWins(es, f, i);
  }

  // ------------------------------------------------------------ coordinates

  predicate IsBracket(c: char) {
    c == '[' || c == ']' || c == '(' || c == ')'
  }

  /**
   * `parse_coordinates`: strip brackets and parentheses from both ends,
   * drop every space, split on commas, and read the first two parts as
   * numbers; fewer than two parts or a malformed number give `None`.
   */
  function ParseCoordinates(text: string): (r: Option<(real, real)>)
    ensures var parts := Split(RemoveAll(StripBy(text, IsBracket), " "), ',');
      r.Some? <==> |parts| >= 2 && ParseNumber(parts[0]).Some? && ParseNumber(parts[1]).Some?
    ensures var parts := Split(RemoveAll(StripBy(text, IsBracket), " "), ',');
      r.Some? ==> r.value == (ParseNumber(parts[0]).value, ParseNumber(parts[1]).value)
  {
    var parts := Split(RemoveAll(StripBy(text, IsBracket), " "), ',');
    if |parts| >= 2 then
      match (ParseNumber(parts[0]), ParseNumber(parts[1]))
      case (Some(x), Some(y)) => Some((x, y))
      case _ => None
    else None
  }

  /** A text holding no comma never yields a pair. */
  lemma NoCommaNoPair(text: string)
    requires ',' !in text
    ensures ParseCoordinates(text) == None
  {
    var clean := RemoveAll(StripBy(text, IsBracket), " ");
    RemovedTextIsSubsequence(StripBy(text, IsBracket), " ", ',');
    StripByKeepsAbsence(text, IsBracket, ',');
    SplitWithoutSeparator(clean, ',');
  }

  lemma StripByKeepsAbsence(s: string, drop: char -> bool, c: char)
    requires c !in s
    ensures c !in StripBy(s, drop)
  {
    var l := TrimLeft(s, drop);
    var r := TrimRight(l, drop);
    forall i | 0 <= i < |r| ensures r[i] != c {
      assert r[i] == l[i] == s[|s| - |l| + i];
    }
  }

  lemma {:induction false} RemovedTextIsSubsequence(s: string, pat: string, c: char)
    requires pat != [] && c !in s
    ensures c !in RemoveAll(s, pat)
    decreases |s|
  {
    if |s| >= |pat| {
      if s[..|pat|] == pat {
        RemovedTextIsSubsequence(s[|pat|..], pat, c);
      } else {
        RemovedTextIsSubsequence(s[1..], pat, c);
      }
    }
  }

  /** Brackets around a text that neither starts nor ends with one are stripped exactly. */
  lemma StripOneBracketPair(inner: string, open: char, close: char)
    requires IsBracket(open) && IsBracket(close)
    requires inner != [] && !IsBracket(inner[0]) && !IsBracket(inner[|inner| - 1])
    ensures StripBy([open] + inner + [close], IsBracket) == inner
  {
    var text := [open] + inner + [close];
    var l := TrimLeft(text, IsBracket);
    assert text[1..] == inner + [close];
    assert l == text[1..] by {
      assert !IsBracket(text[1]);
    }
    assert l[..|l| - 1] == inner;
    assert !IsBracket(l[|l| - 2]);
  }

  /** Removing the spaces of "a, b" leaves "a,b" when `a` and `b` hold no space. */
  lemma RemoveSpaceAfterComma(sa: string, sb: string)
    requires ' ' !in sa && ' ' !in sb
    ensures RemoveAll(sa + ", " + sb, " ") == sa + [','] + sb
  {
    CommaSpaceSplit(sa, sb);
    RemoveCharConcat(sa + [','], [' '] + sb, ' ');
    RemoveSpaceBeforeComma(sa);
    RemoveLeadingSpace(sb);
  }

  lemma CommaSpaceSplit(sa: string, sb: string)
    ensures sa + ", " + sb == (sa + [',']) + ([' '] + sb)
  {
  }

  lemma RemoveSpaceBeforeComma(sa: string)
    requires ' ' !in sa
    ensures RemoveAll(sa + [','], " ") == sa + [',']
  {
    RemoveCharAbsent(sa + [','], ' ');
  }

  lemma RemoveLeadingSpace(sb: string)
    requires ' ' !in sb
    ensures RemoveAll([' '] + sb, " ") == sb
  {
    var t := [' '] + sb;
    assert t[..1] == " " && t[1..] == sb;
    RemoveCharAbsent(sb, ' ');
  }

  lemma Regroup(p: string, q: string, r: string, s: string, t: string)
    ensures p + q + r + s + t == p + (q + r + s) + t
  {
  }

  /** Round trip: "(a, b)" written with natural numbers reads back as the pair (a, b). */
  lemma ParenthesisedPairRoundTrip(a: nat, b: nat)
    ensures ParseCoordinates("(" + NatText(a) + ", " + NatText(b) + ")") == Some((a as real, b as real))
  {
    var sa, sb := NatText(a), NatText(b);
    NatTextIsPlain(a);
    NatTextIsPlain(b);
    var text := "(" + sa + ", " + sb + ")";
    BracketsOfPairStripped(sa, sb);
    PairTextSplits(sa, sb);
    ParsePlainNatText(a);
    ParsePlainNatText(b);
  }

  /**
   * Round trip for signed decimals: "(x, y)" with each number written as an
   * optional minus sign, digits, and optionally a point and more digits,
   * reads back as the pair of their values.
   */
  lemma SignedDecimalPairRoundTrip(a: Decimal, b: Decimal)
    requires AllDigits(a.fraction) && AllDigits(b.fraction)
    ensures ParseCoordinates("(" + DecimalText(a) + ", " + DecimalText(b) + ")") == Some((DecimalValue(a), DecimalValue(b)))
  {
    var sa, sb := DecimalText(a), DecimalText(b);
    DecimalTextIsPlain(a);
    DecimalTextIsPlain(b);
    BracketsOfPairStripped(sa, sb);
    PairTextSplits(sa, sb);
    ParseDecimalText(a);
    ParseDecimalText(b);
  }

  lemma DecimalTextIsPlain(d: Decimal)
    requires AllDigits(d.fraction)
    ensures ' ' !in DecimalText(d) && ',' !in DecimalText(d)
    ensures !IsBracket(DecimalText(d)[0]) && !IsBracket(DecimalText(d)[|DecimalText(d)| - 1])
  {
    DecimalTextEnds(d);
    DecimalTextCharacters(d);
  }

  lemma NatTextIsPlain(n: nat)
    ensures ' ' !in NatText(n) && ',' !in NatText(n)
    ensures !IsBracket(NatText(n)[0]) && !IsBracket(NatText(n)[|NatText(n)| - 1])
  {
    var s := NatText(n);
    assert forall i :: 0 <= i < |s| ==> IsDigit(s[i]);
  }

  lemma BracketsOfPairStripped(sa: string, sb: string)
    requires sa != [] && sb != [] && !IsBracket(sa[0]) && !IsBracket(sb[|sb| - 1])
    ensures StripBy("(" + sa + ", " + sb + ")", IsBracket) == sa + ", " + sb
  {
    var inner := sa + ", " + sb;
    assert inner[0] == sa[0] && inner[|inner| - 1] == sb[|sb| - 1];
    StripOneBracketPair(inner, '(', ')');
    Regroup("(", sa, ", ", sb, ")");
  }

  lemma PairTextSplits(sa: string, sb: string)
    requires ' ' !in sa && ',' !in sa && ' ' !in sb && ',' !in sb
    ensures Split(RemoveAll(sa + ", " + sb, " "), ',') == [sa, sb]
  {
    RemoveSpaceAfterComma(sa, sb);
    SplitAtFirstSeparator(sa, ',', sb);
    SplitWithoutSeparator(sb, ',');
  }
}
