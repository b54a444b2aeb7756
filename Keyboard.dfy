/** The keyboard-navigation mode: the body's `keyboard-navigation` class. */
module Keyboard {

  /** A key press with its `e.key`, or a mouse button going down. */
  datatype Input = KeyDown(key: string) | MouseDown

  /** Tab adds the class, any mousedown removes it, other keys leave it. */
  function Step(on: bool, input: Input): bool
  {
    match input
    case KeyDown(key) => if key == "Tab" then true else on
    case MouseDown => false
  }

  function Run(on: bool, inputs: seq<Input>): bool
  {
    if |inputs| == 0 then on else Step(Run(on, inputs[..|inputs| - 1]), inputs[|inputs| - 1])
  }

  /** No mousedown in `inputs` after position `i`. */
  predicate NoMouseDownAfter(inputs: seq<Input>, i: int)
  {
    forall j :: 0 <= j < |inputs| && i < j ==> !inputs[j].MouseDown?
  }

  /** Some Tab press has not been followed by a mousedown. */
  predicate TabSinceMouseDown(inputs: seq<Input>)
  {
    exists i :: 0 <= i < |inputs| && inputs[i] == KeyDown("Tab") && NoMouseDownAfter(inputs, i)
  }

  /**
   * The mode is on after `inputs` exactly when a Tab press came after the last mousedown,
   * or the mode was already on and no mousedown occurred.
   */
  lemma {:induction false} RunCharacterized(on: bool, inputs: seq<Input>)
    ensures Run(on, inputs) <==> TabSinceMouseDown(inputs) || (on && NoMouseDownAfter(inputs, -1))
  {
    if |inputs| > 0 {
      var n := |inputs| - 1;
      var init := inputs[..n];
      RunCharacterized(on, init);
      assert forall j :: 0 <= j < n ==> init[j] == inputs[j];
      match inputs[n]
      case MouseDown =>
        assert !NoMouseDownAfter(inputs, -1);
        forall i | 0 <= i < |inputs| && inputs[i] == KeyDown("Tab")
          ensures !NoMouseDownAfter(inputs, i)
        {
          assert i < n;
        }
      case KeyDown(key) =>
        if key == "Tab" {
          assert NoMouseDownAfter(inputs, n);
        } else {
          if TabSinceMouseDown(init) {
            var i :| 0 <= i < n && init[i] == KeyDown("Tab") && NoMouseDownAfter(init, i);
            assert NoMouseDownAfter(inputs, i);
          }
          if TabSinceMouseDown(inputs) {
            var i :| 0 <= i < |inputs| && inputs[i] == KeyDown("Tab") && NoMouseDownAfter(inputs, i);
            assert i < n && NoMouseDownAfter(init, i);
          }
          if NoMouseDownAfter(init, -1) {
            assert NoMouseDownAfter(inputs, -1);
          }
        }
    }
  }

  /** A Tab press turns the mode on and a mousedown turns it off, whatever came before. */
  lemma LastInputDecides(on: bool, inputs: seq<Input>)
    ensures Run(on, inputs + [KeyDown("Tab")])
    ensures !Run(on, inputs + [MouseDown])
  {
    assert (inputs + [KeyDown("Tab")])[..|inputs|] == inputs;
    assert (inputs + [MouseDown])[..|inputs|] == inputs;
  }
}
