/**
 The exit status of the `brute` command in `main.py`: reading the password list
 (its outcome given as `loaded`, `None` for a file that could not be read), then
 running the prober when the list is non-empty.
 */
module Cli {

  import opened Wrappers
  import opened BruteForcer
  import Passwords

  /** Some non-blank entry of the list leads to a login. */
  predicate AnyAccepted(send: LoginRequest -> Reply, url: string, username: string,
                        passwords: seq<string>) {
    var cands := Candidates(passwords);
    exists k :: 0 <= k < |cands| && Succeeds(send, url, username, cands[k])
  }

  /** 1 for an unreadable or empty list (the prober is not run), 0 when the prober
      finds a credential, 2 when it does not. A non-empty list of blank entries
      runs the prober, which finds nothing, so it exits with 2, not 1. */
  function BruteExitCode(send: LoginRequest -> Reply, url: string, username: string,
                         loaded: Option<seq<string>>): (code: int)
    ensures code == 1 <==> loaded.None? || loaded.value == []
    ensures code == 0 <==> loaded.Some? && loaded.value != [] && AnyAccepted(send, url, username, loaded.value)
    ensures code == 2 <==> loaded.Some? && loaded.value != [] && !AnyAccepted(send, url, username, loaded.value)
  {
    match loaded
    case None => 1
    case Some(passwords) =>
      if passwords == [] then 1
      else if BruteForceLogin(send, url, username, passwords).found.Some? then 0
      else 2
  }

  /** A file whose only line is a NUL loads as one empty password, which the prober
      skips: the command reports a failed login rather than an empty file. */
  lemma NulOnlyFileExitsTwo(send: LoginRequest -> Reply, url: string, username: string)
    ensures BruteExitCode(send, url, username, Some(Passwords.LoadFromFile(["\0"]))) == 2
  {
    Passwords.NulLineGivesEmptyEntry();
    AllBlankTriesNothing(send, url, username, [""]);
  }

}
