/** The process-wide constants of the log parser (logparser.py, lines 33-46). */
module Config {

  /** The modules, by the name that identifies them in the log, in declared order. */
  const KNOWN_MODULES: seq<string> := ["Unitex", "ChatScript", "SIREN", "JASON"]

  /** The text that marks the first line of a new question/answer block. */
  const INPUT_LINE: string := "Unitex input: "

  /** The answer the bot gives when it does not know how to respond. */
  const BAD_RESPONSE: string := "Hey, sorry. What were we talking about?"

  /** The column names of the tabular export. */
  const CSV_HEADERS: seq<string> := ["User", "ResponseModule", "Question", "Correct", "Timestamp"]
}
