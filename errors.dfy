/** Outcomes of the helpers in src/utils.js.

    Every `throw new Error(...)` of the helpers becomes a `Failure` carrying
    an `Error` whose fields are exactly the values the source interpolates
    into its message. */
module Errors {

  datatype Error =
    | InvalidInteger(text: string)                  // parseIntInput: "Invalid integer value: <text>"
    | InvalidWeight(name: string, weightText: string) // parseAssignments: "Invalid weight value for <name> assignment: <weightText>"
    | InvalidAssignment(valueString: string)        // parseAssignments: "Invalid assignment value: <valueString>"
    | EmptyPickList                                 // pickNRandomFromArray: "Can not pick random from empty list."
    | TeamMembersUnavailable                        // getTeamMembers: "Failed to retrieve team members"

  datatype Result<+T> = Success(value: T) | Failure(error: Error)

  datatype Option<+T> = None | Some(value: T)

  /** The message text the source attaches to each error. The model compares
      errors by their fields; this function only records the texts. */
  function Message(e: Error): string
  {
    match e
    case InvalidInteger(text) => "Invalid integer value: " + text
    case InvalidWeight(name, weightText) => "Invalid weight value for " + name + " assignment: " + weightText
    case InvalidAssignment(valueString) => "Invalid assignment value: " + valueString
    case EmptyPickList => "Can not pick random from empty list."
    case TeamMembersUnavailable => "Failed to retrieve team members"
  }
}
