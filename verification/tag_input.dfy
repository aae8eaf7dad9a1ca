/** The recipient picker of the composer: which address suggestions it offers, the extra
    option for what is being typed, the chosen values it shows, and the initials drawn in
    each chip's avatar. */
module TagInput {
  import opened Wrappers
  import opened Seqs
  import opened Text

  /** A suggested address as the suggestions query returns it. */
  datatype Suggestion = Suggestion(name: Option<string>, address: string)

  /** A chosen recipient as the composer keeps it; `caption` is the source's `label`. */
  datatype Choice = Choice(caption: string, value: string)

  /** What the chip shows: a display name and an address. */
  datatype Named = Named(name: string, address: string)

  /** An entry of the select control. */
  datatype TagOption = TagOption(caption: string, value: string, data: Named)

  /** `name ?? address`: only a missing name falls back to the address (an empty name is
      kept). */
  function DisplayName(name: Option<string>, address: string): string {
    name.GetOr(address)
  }

  function OptionOf(s: Suggestion): TagOption {
    var shown := DisplayName(s.name, s.address);
    TagOption(shown, s.address, Named(shown, s.address))
  }

  /** `s.address !== accountEmail`; with no account email known every suggestion passes. */
  predicate Offered(s: Suggestion, accountEmail: Option<string>) {
    accountEmail.None? || s.address != accountEmail.value
  }

  /** The options built from the suggestions: the account's own address is left out, the
      others keep their order. */
  function Options(suggestions: Option<seq<Suggestion>>, accountEmail: Option<string>): (r: seq<TagOption>)
    ensures suggestions.None? ==> r == []
    ensures accountEmail.Some? ==>
      forall i :: 0 <= i < |r| ==> r[i].value != accountEmail.value
    ensures forall i :: 0 <= i < |r| ==>
      exists j :: 0 <= j < |suggestions.GetOr([])| && Offered(suggestions.GetOr([])[j], accountEmail)
        && r[i] == OptionOf(suggestions.GetOr([])[j])
    ensures forall j :: 0 <= j < |suggestions.GetOr([])| && Offered(suggestions.GetOr([])[j], accountEmail) ==>
      OptionOf(suggestions.GetOr([])[j]) in r
  {
    if suggestions.None? then []
    else
      assert suggestions.GetOr([]) == suggestions.value;
      Kept(suggestions.value, accountEmail)
  }

  function Kept(ss: seq<Suggestion>, accountEmail: Option<string>): (r: seq<TagOption>)
    ensures |r| <= |ss|
    ensures accountEmail.Some? ==>
      forall i :: 0 <= i < |r| ==> r[i].value != accountEmail.value
    ensures forall i :: 0 <= i < |r| ==>
      exists j :: 0 <= j < |ss| && Offered(ss[j], accountEmail) && r[i] == OptionOf(ss[j])
    ensures forall j :: 0 <= j < |ss| && Offered(ss[j], accountEmail) ==> OptionOf(ss[j]) in r
    ensures (forall j :: 0 <= j < |ss| ==> Offered(ss[j], accountEmail)) ==>
      |r| == |ss| && forall i :: 0 <= i < |ss| ==> r[i] == OptionOf(ss[i])
  {
    if |ss| == 0 then []
    else
      var rest := Kept(ss[1..], accountEmail);
      var here := if Offered(ss[0], accountEmail) then [OptionOf(ss[0])] else [];
      assert forall j :: 1 <= j < |ss| ==> ss[j] == ss[1..][j - 1];
      here + rest
  }

  /** The option offered for the text being typed: caption and value are the text itself. */
  function Typed(input: string): TagOption {
    TagOption(input, input, Named(input, input))
  }

  /** The options handed to the control: with some text typed, exactly one extra option
      for it at the end. */
  function OptionsWithInput(options: seq<TagOption>, input: string): (r: seq<TagOption>)
    ensures input == "" ==> r == options
    ensures input != "" ==> |r| == |options| + 1 && r[..|options|] == options && r[|options|] == Typed(input)
  {
    if input != "" then options + [Typed(input)] else options
  }

  /** Typing one's own address brings it back: the filter only applies to the suggestions. */
  lemma TypingOwnAddressOffersIt(suggestions: Option<seq<Suggestion>>, accountEmail: string)
    requires accountEmail != ""
    ensures var r := OptionsWithInput(Options(suggestions, Some(accountEmail)), accountEmail);
      && (exists i :: 0 <= i < |r| && r[i].value == accountEmail)
      && (forall i :: 0 <= i < |r| - 1 ==> r[i].value != accountEmail)
  {
    var r := OptionsWithInput(Options(suggestions, Some(accountEmail)), accountEmail);
    assert r[|r| - 1] == Typed(accountEmail);
  }

  /** The chosen recipients as the control shows them. */
  function SelectedValues(values: seq<Choice>): (r: seq<TagOption>)
    ensures |r| == |values|
    ensures forall i :: 0 <= i < |r| ==> r[i].caption == values[i].caption && r[i].value == values[i].value
    ensures forall i :: 0 <= i < |r| ==> r[i].data == Named(values[i].caption, values[i].value)
  {
    seq(|values|, i requires 0 <= i < |values| => TagOption(values[i].caption, values[i].value, Named(values[i].caption, values[i].value)))
  }

  /** What the control reports back on change: the caption and value of each entry. */
  function Reported(shown: seq<TagOption>): (r: seq<Choice>)
    ensures |r| == |shown|
  {
    seq(|shown|, i requires 0 <= i < |shown| => Choice(shown[i].caption, shown[i].value))
  }

  /** Showing the chosen values and reporting them back loses nothing. */
  lemma SelectedValuesRoundTrip(values: seq<Choice>)
    ensures Reported(SelectedValues(values)) == values
  {
    var r := Reported(SelectedValues(values));
    assert forall i :: 0 <= i < |values| ==> r[i] == values[i];
  }

  // ---------------------------------------------------------------------------------
  // Initials

  /** `chunk[0]` joined with `""`: an empty chunk yields `undefined`, which joins as
      nothing. */
  function First(chunk: string): string {
    if |chunk| == 0 then "" else [chunk[0]]
  }

  function Firsts(chunks: seq<string>): (r: seq<string>)
    ensures |r| == |chunks|
  {
    seq(|chunks|, i requires 0 <= i < |chunks| => First(chunks[i]))
  }

  /** The avatar's initials: the name split on single spaces, the first character of each
      piece, upper-cased (ASCII only). */
  function Initials(name: string): string {
    Upper(Flatten(Firsts(Split(name, ' '))))
  }

  /** The characters that begin a word: not a space, and either the first character or
      right after a space. `afterSpace` says whether the text before `s` ended a word. */
  function WordStarts(s: string, afterSpace: bool): (r: string)
    ensures |r| <= |s|
    ensures ' ' !in r
  {
    if |s| == 0 then []
    else (if s[0] != ' ' && afterSpace then [s[0]] else []) + WordStarts(s[1..], s[0] == ' ')
  }

  lemma FirstsCons(a: string, chunks: seq<string>)
    ensures Firsts([a] + chunks) == [First(a)] + Firsts(chunks)
  {
    var l := Firsts([a] + chunks);
    assert forall i :: 1 <= i < |l| ==> l[i] == First(chunks[i - 1]);
  }

  /** The first characters of the pieces of `c + s`, when `c` is not a space, are `c`
      followed by those of the pieces of `s` after its first. */
  lemma SplitWordStep(c: char, s: string)
    requires c != ' '
    ensures Flatten(Firsts(Split([c] + s, ' '))) == [c] + Flatten(Firsts(Split(s, ' ')[1..]))
    ensures Split([c] + s, ' ')[1..] == Split(s, ' ')[1..]
  {
    var rest := Split(s, ' ');
    var t := [c] + s;
    assert t[0] == c && t[1..] == s;
    var head := [c] + rest[0];
    assert Split(t, ' ') == [head] + rest[1..];
    FirstsCons(head, rest[1..]);
    FlattenCons([c], Firsts(rest[1..]));
  }

  /** The same when the first character is a space: it ends an empty first piece. */
  lemma SplitSpaceStep(s: string)
    ensures Flatten(Firsts(Split([' '] + s, ' '))) == Flatten(Firsts(Split(s, ' ')))
    ensures Split([' '] + s, ' ')[1..] == Split(s, ' ')
  {
    var rest := Split(s, ' ');
    var t := [' '] + s;
    assert t[0] == ' ' && t[1..] == s;
    assert Split(t, ' ') == [""] + rest;
    FirstsCons("", rest);
    FlattenCons("", Firsts(rest));
  }

  /** Splitting on spaces and taking each piece's first character picks exactly the word
      starts; skipping the first piece picks those after the first space. */
  lemma {:induction false} FirstsOfSplit(s: string)
    ensures Flatten(Firsts(Split(s, ' '))) == WordStarts(s, true)
    ensures Flatten(Firsts(Split(s, ' ')[1..])) == WordStarts(s, false)
  {
    if |s| == 0 {
      assert Split(s, ' ') == [""];
      assert Firsts([""]) == [""];
      assert Flatten([""]) == Flatten<char>([]) + "";
      assert Firsts(Split(s, ' ')[1..]) == [];
    } else {
      FirstsOfSplit(s[1..]);
      assert s == [s[0]] + s[1..];
      if s[0] == ' ' {
        SplitSpaceStep(s[1..]);
      } else {
        SplitWordStep(s[0], s[1..]);
      }
    }
  }

  /** The initials are the upper-cased first character of every word. */
  lemma InitialsAreWordStarts(name: string)
    ensures Initials(name) == Upper(WordStarts(name, true))
    ensures |Initials(name)| <= |name|
    ensures ' ' !in Initials(name)
  {
    FirstsOfSplit(name);
    var w := WordStarts(name, true);
    forall i | 0 <= i < |w| ensures Upper(w)[i] != ' ' {
      assert w[i] != ' ';
    }
  }
}
