/** The validator's fixed configuration and the shape of its answers. */
module Policy {

  /** `ALLOWED_COMMANDS`: the command names an agent may run at all. */
  const AllowedCommands: set<string> := {
    "ls", "cat", "head", "tail", "wc", "grep", "find", "tree",
    "cp", "mv", "mkdir", "chmod", "touch",
    "pwd", "cd",
    "npm", "node", "npx",
    "python", "python3", "pip", "pip3",
    "git",
    "ps", "lsof", "sleep", "pkill",
    "echo", "which", "curl", "wget",
    "init.sh", "bash", "sh"
  }

  /** `COMMANDS_NEEDING_EXTRA_VALIDATION`: allowed names whose arguments are
      checked as well. */
  const NeedsExtraValidation: set<string> := {"pkill", "chmod", "init.sh", "bash", "sh", "curl", "wget"}

  /** The processes `pkill` may target. */
  const DevProcesses: set<string> := {
    "node", "npm", "npx", "vite", "next", "webpack", "parcel", "python", "python3"
  }

  /** Why a command is refused; one kind per message of the source, with the
      offending token where the message shows it. */
  datatype Reason =
    | Unparseable                   // could not parse command for security validation
    | NotAllowed(command: string)    // not in the allowed commands list
    | PkillUnparseable
    | PkillNoTarget
    | PkillNotDevProcess            // the message lists the allowed set, not the target
    | ChmodUnparseable
    | ChmodTooFewTokens
    | ChmodNoMode
    | ChmodBadMode(mode: string)
    | InitUnparseable
    | InitEmpty
    | InitNotInitScript(script: string)
    | ShellUnparseable
    | ShellNoScript
    | ShellNotInitScript(argument: string)

  /** `(True, "")`, `(False, reason)`, or an exception escaping the call. */
  datatype Decision = Allow | Deny(reason: Reason) | RaisedIndexError

  /** Every name that gets a deep check is also on the allowlist, so the deep
      checks are reached only for allowed names. */
  lemma DeepCheckedAreAllowed()
    ensures NeedsExtraValidation <= AllowedCommands
  {
  }
}
