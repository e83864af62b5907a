/**
 The option list of the app and its three edits: add (from the text field),
 toggle the boost flag, and remove one entry by its list index.
 */
module Options {
  import opened Text

  /**
   One entry of the list. `id` comes from the clock when the entry is added
   and is opaque here: nothing assumes it is unique.
   */
  datatype Option = Option(text: string, boosted: bool, id: string)

  /** The list together with the contents of the option text field. */
  datatype Edit = Edit(options: seq<Option>, input: string)

  /** An entry's text is what the add handler would have stored: trimmed and non-empty. */
  predicate WellFormedText(t: string) {
    t != [] && Trim(t) == t
  }

  /** Every entry of the list has a well-formed text. */
  predicate WellFormed(options: seq<Option>) {
    forall j :: 0 <= j < |options| ==> WellFormedText(options[j].text)
  }

  /**
   The add handler. When the trimmed field is non-empty, one unboosted entry
   with the trimmed text and the given `id` is appended after the untouched
   existing entries and the field is cleared; otherwise list and field stay
   as they are.
   */
  function AddOption(options: seq<Option>, input: string, id: string): (r: Edit)
    ensures Trim(input) != [] ==>
              && |r.options| == |options| + 1
              && r.options[..|options|] == options
              && r.options[|options|] == Option(Trim(input), false, id)
              && r.input == ""
    ensures Trim(input) == [] ==> r == Edit(options, input)
    ensures WellFormed(options) ==> WellFormed(r.options)
  {
    var t := Trim(input);
    if |t| > 0 then
      TrimIdempotent(input);
      Edit(options + [Option(t, false, id)], "")
    else
      Edit(options, input)
  }

  /** `o` with its boost flag flipped. */
  function Flip(o: Option): Option {
    o.(boosted := !o.boosted)
  }

  /**
   The boost toggle: entry `index` has its flag flipped and everything else
   is kept. An `index` outside the list matches no entry and changes nothing.
   */
  function ToggleBoost(options: seq<Option>, index: int): (r: seq<Option>)
    ensures |r| == |options|
    ensures forall j :: 0 <= j < |r| ==> r[j].text == options[j].text && r[j].id == options[j].id
    ensures forall j :: 0 <= j < |r| && j != index ==> r[j] == options[j]
    ensures 0 <= index < |options| ==> r[index].boosted == !options[index].boosted
    ensures !(0 <= index < |options|) ==> r == options
    ensures WellFormed(options) ==> WellFormed(r)
  {
    seq(|options|, j requires 0 <= j < |options| =>
      if j == index then Flip(options[j]) else options[j])
  }

  /** In range, the toggle replaces exactly one entry by its flipped copy. */
  lemma ToggleBoostSplice(options: seq<Option>, index: int)
    requires 0 <= index < |options|
    ensures ToggleBoost(options, index)
            == options[..index] + [Flip(options[index])] + options[index + 1..]
  {
  }

  /** Toggling the same entry twice gives back the original list. */
  lemma ToggleBoostTwice(options: seq<Option>, index: int)
    ensures ToggleBoost(ToggleBoost(options, index), index) == options
  {
    var once := ToggleBoost(options, index);
    var twice := ToggleBoost(once, index);
    assert forall j :: 0 <= j < |options| ==> twice[j] == options[j];
  }

  /**
   The remove handler: a filter that keeps every entry whose position is not
   `index`, written as a recursion on the tail with the target index shifted
   down by one at each step.
   In range the result is the list with entry `index` cut out, the others in
   their original order; out of range nothing is removed.
   */
  function RemoveAt(options: seq<Option>, index: int): (r: seq<Option>)
    ensures 0 <= index < |options| ==> r == options[..index] + options[index + 1..]
    ensures 0 <= index < |options| ==> |r| == |options| - 1
    ensures !(0 <= index < |options|) ==> r == options
    decreases |options|
  {
    if |options| == 0 then
      []
    else
      var rest := RemoveAt(options[1..], index - 1);
      if index == 0 then rest else [options[0]] + rest
  }

  /** Removing keeps a well-formed list well-formed. */
  lemma RemoveAtWellFormed(options: seq<Option>, index: int)
    ensures WellFormed(options) ==> WellFormed(RemoveAt(options, index))
  {
    if WellFormed(options) && 0 <= index < |options| {
      var front, back := options[..index], options[index + 1..];
      var r := RemoveAt(options, index);
      assert r == front + back;
      forall j | 0 <= j < |r|
        ensures WellFormedText(r[j].text)
      {
        if j < index {
          assert r[j] == front[j] == options[j];
        } else {
          assert r[j] == back[j - index] == options[j + 1];
        }
      }
    }
  }
}
