/**
 * The tokenised form of one line of user input: an action keyword plus the values
 * supplied after option flags such as `/d`, `/by` and `/at`.
 */
module Argument {

  /** The kinds of directive a user may request. */
  datatype Action = AddTodo | AddDeadline | AddEvent | Done | Delete | List | Find | Exit

  /** An action together with the option values that followed its flags. */
  datatype Argument = Argument(action: Action, options: map<string, string>)
  {
    /**
     * The value given after `flag`, or the empty string when the flag was not supplied:
     * absence is not distinguished from a flag supplied with an empty value.
     */
    function OptionValue(flag: string): string
    {
      if flag in options then options[flag] else ""
    }
  }
}
