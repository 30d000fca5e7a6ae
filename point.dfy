/**
 * The `Point` class of the TypeScript primer (main.js, the compiled output of
 * main.ts): two coordinates and an `x` accessor pair whose setter refuses
 * negative values by throwing. Coordinates are modelled as integers.
 */
module Geometry {
  import opened Wrappers

  /** The message of the error the `x` setter throws. */
  const NegativeValueMessage: string := "value cannot be less than 0."

  class Point {
    /** `this._x` */
    var storedX: int
    /** `this._y` */
    var storedY: int

    /** `new Point(_x, _y)`: stores both coordinates as given, with no sign check. */
    constructor (x: int, y: int)
      ensures storedX == x && storedY == y
    {
      storedX := x;
      storedY := y;
    }

    /** The `x` getter. */
    function X(): int
      reads this
    {
      storedX
    }

    /**
     * The `x` setter: a negative value throws and changes nothing; any other
     * value becomes the new `_x`. `_y` is never touched.
     */
    method SetX(value: int) returns (outcome: Outcome<string>)
      modifies this
      ensures value < 0 ==> outcome == Fail(NegativeValueMessage) && storedX == old(storedX)
      ensures 0 <= value ==> outcome == Pass && X() == value
      ensures outcome.Pass? ==> X() >= 0
      ensures storedY == old(storedY)
    {
      if value < 0 {
        return Fail(NegativeValueMessage);
      }
      storedX := value;
      outcome := Pass;
    }
  }

  /**
   * The script at the end of main.js: construct (1, 2), read `x`, set `x` to
   * 10 (console output from `draw` is not modelled).
   */
  method Script() returns (firstRead: int, outcome: Outcome<string>, secondRead: int)
    ensures firstRead == 1 && outcome == Pass && secondRead == 10
  {
    var pt := new Point(1, 2);
    firstRead := pt.X();
    outcome := pt.SetX(10);
    secondRead := pt.X();
  }
}
