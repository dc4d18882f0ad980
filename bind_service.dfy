/** The BIND9 zone-file service: a zone file per managed domain, edited in
    place, followed by a serial bump and a check-and-reload of the name
    server. The file system is the `files` map (a path is there exactly when
    the file exists) and the external commands run by the reload pipeline
    are recorded in `commands`; what each command reports is a parameter. */
module Bind {
  import opened Text
  import opened ZoneText

  datatype BindError =
    | InvalidDomainName      // the path guard refused the domain
    | FileMissing(path: string)  // reading a zone file that does not exist
    | SerialNotFound         // no `<digits> ; Serial` stamp in the zone file
    | RecordNotFound         // no line declares the subdomain's A record
    | ReloadFailed           // one of the three reload commands failed

  datatype Result<T> = Ok(value: T) | Err(error: BindError)

  /** What create and update hand back: the record's full name and its address. */
  datatype DnsRecord = DnsRecord(name: string, content: string)

  /** The external commands of the reload pipeline. */
  datatype Command = CheckConf | CheckZone(domain: string, path: string) | ReloadNamed

  /** Whether each of the three commands succeeds when it runs. */
  datatype ExecOutcome = ExecOutcome(confOk: bool, zoneOk: bool, reloadOk: bool)

  /** `domain.includes("..")`. */
  predicate HasDotDot(domain: string) {
    exists i :: 0 <= i < |domain| - 1 && domain[i] == '.' && domain[i + 1] == '.'
  }

  /** `getZoneFilePath`: the configured mapping, unless the domain could climb
      out of the zone directory. */
  function ZoneFilePath(zonePath: string -> string, domain: string): (r: Result<string>)
    ensures r.Err? <==> '/' in domain || HasDotDot(domain)
    ensures r.Err? ==> r.error == InvalidDomainName
    ensures r.Ok? ==> r.value == zonePath(domain)
  {
    if '/' in domain || HasDotDot(domain) then Err(InvalidDomainName) else Ok(zonePath(domain))
  }

  /** Only `/` and `..` are refused: a backslash, a lone dot or any other
      character passes the guard. */
  lemma ZoneFilePathGuard(zonePath: string -> string)
    ensures ZoneFilePath(zonePath, "..\\zone").Err?
    ensures ZoneFilePath(zonePath, "a/b").Err?
    ensures ZoneFilePath(zonePath, "a\\b").Ok?
    ensures ZoneFilePath(zonePath, "sitey.one").Ok? && ZoneFilePath(zonePath, "sitey.my").Ok?
  {
    assert "..\\zone"[0] == '.' && "..\\zone"[1] == '.';
    assert "a/b"[1] == '/';
    var s1, s2 := "sitey.one", "sitey.my";
    assert !HasDotDot(s1) by {
      forall i | 0 <= i < |s1| - 1 ensures !(s1[i] == '.' && s1[i + 1] == '.') {
      }
    }
    assert !HasDotDot(s2) by {
      forall i | 0 <= i < |s2| - 1 ensures !(s2[i] == '.' && s2[i + 1] == '.') {
      }
    }
  }

  /** The three commands in pipeline order. */
  function Pipeline(domain: string, path: string): seq<Command> {
    [CheckConf, CheckZone(domain, path), ReloadNamed]
  }

  /** The commands `reloadBind` runs: each in turn, up to and including the first that fails. */
  function ReloadSteps(domain: string, path: string, exec: ExecOutcome): (r: seq<Command>)
    ensures 1 <= |r| <= 3 && r == Pipeline(domain, path)[..|r|]
    ensures |r| < 3 <==> !(exec.confOk && exec.zoneOk)
    ensures |r| == 1 <==> !exec.confOk
  {
    [CheckConf] +
    if !exec.confOk then []
    else [CheckZone(domain, path)] + if !exec.zoneOk then [] else [ReloadNamed]
  }

  predicate ReloadSucceeds(exec: ExecOutcome) {
    exec.confOk && exec.zoneOk && exec.reloadOk
  }

  /** What a record change leaves in the zone file: the edited text, with its
      stamp bumped when it has one. */
  function Stamped(text: string): (r: string)
    ensures SerialOf(text).Some? ==> SerialOf(r) == Some(SerialOf(text).value + 1)
    ensures SerialOf(text).None? ==> r == text
  {
    match BumpSerial(text)
    case None => text
    case Some(bumped) => BumpSerialIncrements(text); bumped
  }

  /** The commands a record change runs: none when the stamp is missing, else the reload pipeline. */
  function CommitSteps(domain: string, path: string, text: string, exec: ExecOutcome): seq<Command> {
    if SerialOf(text).None? then [] else ReloadSteps(domain, path, exec)
  }

  /** How a record change ends: a missing stamp, a failed reload, or success. */
  function CommitResult(text: string, exec: ExecOutcome): (r: Result<()>)
    ensures r.Ok? <==> SerialOf(text).Some? && ReloadSucceeds(exec)
  {
    if SerialOf(text).None? then Err(SerialNotFound)
    else if !ReloadSucceeds(exec) then Err(ReloadFailed)
    else Ok(())
  }

  /** The value to hand back once every step succeeded. */
  function Then<T>(step: Result<()>, value: T): Result<T> {
    match step
    case Err(e) => Err(e)
    case Ok(_) => Ok(value)
  }

  /** A record created in a stamped zone file is found afterwards, and the
      stamp has gone up by exactly one: the bump touches only the stamp, which
      lies before the appended line. */
  lemma CreateThenFind(content: string, sub: string, ip: string)
    requires IsLiteralLabel(sub) && |ip| > 0 && !IsWs(ip[0]) && '\n' !in ip
    requires SerialOf(content).Some?
    ensures Stamped(AppendRecord(content, sub, ip)) == AppendRecord(Stamped(content), sub, ip)
    ensures HasRecord(Stamped(AppendRecord(content, sub, ip)), sub)
    ensures SerialOf(Stamped(AppendRecord(content, sub, ip))) == Some(SerialOf(content).value + 1)
  {
    var tail := "\n" + RecordLine(sub, ip);
    assert AppendRecord(content, sub, ip) == content + tail;
    SerialStableUnderAppend(content, tail);
    var bumped := BumpSerial(content).value;
    assert AppendRecord(bumped, sub, ip) == bumped + tail;
    AppendThenFind(bumped, sub, ip);
    BumpSerialIncrements(content);
    SerialStableUnderAppend(bumped, tail);
  }

  /** An update whose record line comes after the stamp leaves a file whose
      serial is exactly one above the old file's. */
  lemma UpdateThenStamp(content: string, sub: string, newIp: string)
    requires '$' !in newIp
    requires UpdateRecord(content, sub, newIp).Some? && FindSerial(content).Some?
    requires var lines := Split(content, '\n'); var j := FirstRecordLine(lines, sub, 0).value;
      j > 0 && FindSerial(content).value.end <= LineStart(lines, j)
    ensures SerialOf(Stamped(UpdateRecord(content, sub, newIp).value)) == Some(SerialOf(content).value + 1)
  {
    UpdateKeepsSerial(content, sub, newIp);
  }

  /** A delete whose record line comes after the stamp leaves a file whose
      serial is exactly one above the old file's. */
  lemma DeleteThenStamp(content: string, sub: string)
    requires IsLiteralLabel(sub)
    requires DeleteRecord(content, sub).Some? && FindSerial(content).Some?
    requires var lines := Split(content, '\n'); var j := FirstRecordLine(lines, sub, 0).value;
      j > 0 && FindSerial(content).value.end <= LineStart(lines, j)
    ensures SerialOf(Stamped(DeleteRecord(content, sub).value)) == Some(SerialOf(content).value + 1)
  {
    DeleteKeepsSerial(content, sub);
  }

  /** Writing a file twice leaves only the second text. */
  lemma Overwrite<K, V>(m: map<K, V>, k: K, v: V, w: V)
    ensures m[k := v][k := w] == m[k := w]
  {
  }

  /** Domains whose zones `countManagedSubdomains` tallies. */
  const ManagedDomains: seq<string> := ["sitey.one", "sitey.my"]

  class BindService {
    /** `config.bind.zoneFilePath`, defined outside this service. */
    const zonePath: string -> string
    /** The file system: the text of every existing file. */
    var files: map<string, string>
    /** The external commands run so far, in order. */
    var commands: seq<Command>

    constructor (zonePath: string -> string, files: map<string, string>)
      ensures this.zonePath == zonePath && this.files == files && commands == []
    {
      this.zonePath := zonePath;
      this.files := files;
      commands := [];
    }

    /** `reloadBind`: configuration check, zone check, reload; the first failure stops
        the pipeline and is reported as one error. */
    method ReloadBind(domain: string, path: string, exec: ExecOutcome) returns (r: Result<()>)
      modifies this
      ensures files == old(files)
      ensures commands == old(commands) + ReloadSteps(domain, path, exec)
      ensures r == if ReloadSucceeds(exec) then Ok(()) else Err(ReloadFailed)
    {
      commands := commands + [CheckConf];
      if !exec.confOk {
        return Err(ReloadFailed);
      }
      commands := commands + [CheckZone(domain, path)];
      if !exec.zoneOk {
        return Err(ReloadFailed);
      }
      commands := commands + [ReloadNamed];
      if !exec.reloadOk {
        return Err(ReloadFailed);
      }
      return Ok(());
    }

    /** `incrementSerial`: the first stamp of the file goes up by one; without
        a stamp nothing is written. */
    method IncrementSerial(path: string) returns (r: Result<()>)
      modifies this
      ensures commands == old(commands)
      ensures path !in old(files) ==> r == Err(FileMissing(path)) && files == old(files)
      ensures path in old(files) ==>
        files == old(files)[path := Stamped(old(files)[path])]
        && r == if SerialOf(old(files)[path]).None? then Err(SerialNotFound) else Ok(())
    {
      if path !in files {
        return Err(FileMissing(path));
      }
      var fileContent := files[path];
      var found := FindSerial(fileContent);
      if found.None? {
        return Err(SerialNotFound);
      }
      var m := found.value;
      var currentSerial := DecimalValue(fileContent[m.start..m.digitsEnd]);
      var newSerial := currentSerial + 1;
      fileContent := fileContent[..m.start] + SerialText(newSerial) + fileContent[m.end..];
      files := files[path := fileContent];
      return Ok(());
    }

    /** `findDnsRecord`: whether the domain's zone file has a line declaring the A record. */
    function FindDnsRecord(sub: string, domain: string): (r: Result<bool>)
      reads this
      requires IsLiteralLabel(sub)
      ensures ZoneFilePath(zonePath, domain).Err? ==> r == Err(InvalidDomainName)
      ensures ZoneFilePath(zonePath, domain).Ok? ==>
        var path := zonePath(domain);
        (path !in files ==> r == Err(FileMissing(path)))
        && (path in files ==> r == Ok(HasRecord(files[path], sub)))
    {
      match ZoneFilePath(zonePath, domain)
      case Err(e) => Err(e)
      case Ok(path) =>
        if path !in files then Err(FileMissing(path)) else Ok(HasRecord(files[path], sub))
    }

    /** The common tail of every record change: the edited text is written,
        its stamp is bumped, and the name server is checked and reloaded; a
        failing step stops the later ones. */
    method Commit(path: string, domain: string, text: string, exec: ExecOutcome) returns (r: Result<()>)
      modifies this
      ensures files == old(files)[path := Stamped(text)]
      ensures commands == old(commands) + CommitSteps(domain, path, text, exec)
      ensures r == CommitResult(text, exec)
    {
      files := files[path := text];
      Overwrite(old(files), path, text, Stamped(text));
      var s := IncrementSerial(path);
      if s.Err? {
        return Err(s.error);
      }
      r := ReloadBind(domain, path, exec);
    }

    /** `createDnsRecord`: append the record line (creating the file if need
        be), bump the serial, reload. There is no duplicate check. */
    method CreateDnsRecord(sub: string, ip: string, domain: string, exec: ExecOutcome)
      returns (r: Result<DnsRecord>)
      modifies this
      ensures ZoneFilePath(zonePath, domain).Err? ==>
        r == Err(InvalidDomainName) && files == old(files) && commands == old(commands)
      ensures ZoneFilePath(zonePath, domain).Ok? ==>
        var path := zonePath(domain);
        var appended := AppendRecord(if path in old(files) then old(files)[path] else "", sub, ip);
        files == old(files)[path := Stamped(appended)]
        && commands == old(commands) + CommitSteps(domain, path, appended, exec)
        && r == Then(CommitResult(appended, exec), DnsRecord(sub + "." + domain, ip))
    {
      var p := ZoneFilePath(zonePath, domain);
      if p.Err? {
        return Err(p.error);
      }
      var path := p.value;
      var before := if path in files then files[path] else "";
      var c := Commit(path, domain, AppendRecord(before, sub, ip), exec);
      if c.Err? {
        return Err(c.error);
      }
      return Ok(DnsRecord(sub + "." + domain, ip));
    }

    /** `updateDnsRecord`: give the first record line the new address, bump
        the serial, reload; a missing record fails before anything is written. */
    method UpdateDnsRecord(sub: string, newIp: string, domain: string, exec: ExecOutcome)
      returns (r: Result<DnsRecord>)
      requires IsLiteralLabel(sub) && '$' !in newIp
      modifies this
      ensures ZoneFilePath(zonePath, domain).Err? ==>
        r == Err(InvalidDomainName) && files == old(files) && commands == old(commands)
      ensures ZoneFilePath(zonePath, domain).Ok? && zonePath(domain) !in old(files) ==>
        r == Err(FileMissing(zonePath(domain))) && files == old(files) && commands == old(commands)
      ensures ZoneFilePath(zonePath, domain).Ok? && zonePath(domain) in old(files) ==>
        var path := zonePath(domain);
        match UpdateRecord(old(files)[path], sub, newIp)
        case None =>
          r == Err(RecordNotFound) && files == old(files) && commands == old(commands)
        case Some(edited) =>
          files == old(files)[path := Stamped(edited)]
          && commands == old(commands) + CommitSteps(domain, path, edited, exec)
          && r == Then(CommitResult(edited, exec), DnsRecord(sub + "." + domain, newIp))
    {
      var p := ZoneFilePath(zonePath, domain);
      if p.Err? {
        return Err(p.error);
      }
      var path := p.value;
      if path !in files {
        return Err(FileMissing(path));
      }
      var fileContent := files[path];
      var edited := UpdateRecord(fileContent, sub, newIp);
      if edited.None? {
        return Err(RecordNotFound);
      }
      fileContent := edited.value;
      var c := Commit(path, domain, fileContent, exec);
      if c.Err? {
        return Err(c.error);
      }
      return Ok(DnsRecord(sub + "." + domain, newIp));
    }

    /** `deleteDnsRecord`: remove the first record line, bump the serial,
        reload; a missing record fails before anything is written. */
    method DeleteDnsRecord(sub: string, domain: string, exec: ExecOutcome)
      returns (r: Result<string>)
      requires IsLiteralLabel(sub)
      modifies this
      ensures ZoneFilePath(zonePath, domain).Err? ==>
        r == Err(InvalidDomainName) && files == old(files) && commands == old(commands)
      ensures ZoneFilePath(zonePath, domain).Ok? && zonePath(domain) !in old(files) ==>
        r == Err(FileMissing(zonePath(domain))) && files == old(files) && commands == old(commands)
      ensures ZoneFilePath(zonePath, domain).Ok? && zonePath(domain) in old(files) ==>
        var path := zonePath(domain);
        match DeleteRecord(old(files)[path], sub)
        case None =>
          r == Err(RecordNotFound) && files == old(files) && commands == old(commands)
        case Some(edited) =>
          files == old(files)[path := Stamped(edited)]
          && commands == old(commands) + CommitSteps(domain, path, edited, exec)
          && r == Then(CommitResult(edited, exec), sub + "." + domain)
    {
      var p := ZoneFilePath(zonePath, domain);
      if p.Err? {
        return Err(p.error);
      }
      var path := p.value;
      if path !in files {
        return Err(FileMissing(path));
      }
      var fileContent := files[path];
      var edited := DeleteRecord(fileContent, sub);
      if edited.None? {
        return Err(RecordNotFound);
      }
      fileContent := edited.value;
      var c := Commit(path, domain, fileContent, exec);
      if c.Err? {
        return Err(c.error);
      }
      return Ok(sub + "." + domain);
    }

    /** The tally over the first domains of a list: each zone adds its `IN A`
        count beyond four; the first unreadable zone is the error. */
    function Tally(domains: seq<string>): (r: Result<nat>)
      reads this
      ensures r.Ok? ==> forall i :: 0 <= i < |domains| ==>
        ZoneFilePath(zonePath, domains[i]).Ok? && zonePath(domains[i]) in files
    {
      if domains == [] then Ok(0)
      else
        match Tally(domains[..|domains| - 1])
        case Err(e) => Err(e)
        case Ok(total) =>
          var domain := domains[|domains| - 1];
          match ZoneFilePath(zonePath, domain)
          case Err(e) => Err(e)
          case Ok(path) =>
            if path !in files then Err(FileMissing(path))
            else Ok(total + Surplus(CountInA(files[path])))
    }

    /** Once a zone cannot be read, the tally of any longer list fails the same way. */
    lemma {:induction false} TallyErrorStops(domains: seq<string>, i: nat)
      requires i <= |domains| && Tally(domains[..i]).Err?
      ensures Tally(domains) == Tally(domains[..i])
      decreases |domains|
    {
      if i < |domains| {
        var init := domains[..|domains| - 1];
        assert init[..i] == domains[..i];
        TallyErrorStops(init, i);
      } else {
        assert domains[..i] == domains;
      }
    }

    /** `countManagedSubdomains`. */
    method CountManagedSubdomains() returns (r: Result<nat>)
      ensures r == Tally(ManagedDomains)
    {
      var domains := ManagedDomains;
      var total := 0;
      var i := 0;
      while i < |domains|
        invariant 0 <= i <= |domains|
        invariant Tally(domains[..i]) == Ok(total)
      {
        assert domains[..i + 1][..i] == domains[..i];
        var p := ZoneFilePath(zonePath, domains[i]);
        if p.Err? {
          TallyErrorStops(domains, i + 1);
          return Err(p.error);
        }
        var path := p.value;
        if path !in files {
          TallyErrorStops(domains, i + 1);
          return Err(FileMissing(path));
        }
        var data := files[path];
        var count := CountInA(data);
        total := total + if count > 4 then count - 4 else 0;
        i := i + 1;
      }
      assert domains[..i] == domains;
      return Ok(total);
    }
  }
}
