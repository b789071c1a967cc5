/** The choice records a chained select field stores and renders. */
module Choices {

  /** One choice of a chained select field: its label, its value, whether it
      is preselected, and the choices of the next level. */
  datatype Choice = Choice(text: string, value: string, isSelected: bool, choices: seq<Choice>)
}
