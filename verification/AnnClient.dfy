/** A connected client of the `ann` server. */
module AnnClient {
  class Cli {
    const fd: int
    var passOk: bool
    var nick: string
    var uName: string
    var invits: set<string>
    var bufToSend: string
    var bufRecv: string

    constructor (fd: int)
      ensures this.fd == fd && !passOk && nick == "" && uName == "" && invits == {} && bufToSend == "" && bufRecv == ""
    {
      this.fd := fd;
      passOk, nick, uName, invits, bufToSend, bufRecv := false, "", "", {}, "", "";
    }
  }
}
