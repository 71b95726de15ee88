/** The three legs of the inverter. */
module Legs {
  datatype Leg = A | B | C
}
