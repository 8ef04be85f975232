/**
 * Scp: the target URI of an upload, `user[:password]@host:path`, split into
 * the session's user name, password and host and the remote path, and the
 * task's `fromUri`/`toUri` fields.
 */
module Scp {
  import opened Wrappers
  import opened JavaStrings

  /** The user information SSHBase keeps; None stands for null. */
  datatype Credentials = Credentials(
    username: Option<string>,
    password: Option<string>,
    host: Option<string>,
    keyfile: Option<string>)

  /**
   * What parseUri leaves behind: the credentials after the setters it
   * called (also when it throws half way), and the remote path it
   * returns or the message of the ScpException it throws.
   */
  datatype UriParse = UriParse(creds: Credentials, remotePath: Result<string>)

  const NoUsername: string := "no username was given.  Can't authenticate."

  const NoCredentialsHead: string := "neither password nor keyfile for user "
  const NoCredentialsTail: string := " has been given.  Can't authenticate."

  function NoCredentials(user: string): string
  {
    NoCredentialsHead + user + NoCredentialsTail
  }

  const NoRemotePathHead: string := "no remote path in "

  function NoRemotePath(uri: string): string
  {
    NoRemotePathHead + uri
  }

  /** The `user:password@host:path` notation: a ':' comes before the first '@'. */
  predicate PasswordNotation(uri: string)
  {
    IndexOf(uri, ':') > -1 && IndexOf(uri, ':') < IndexOf(uri, '@')
  }

  /**
   * The '@' that ends the password: the last '@' lying before the last
   * ':', or the first '@' when none lies before the last ':'.
   */
  function ChosenAt(uri: string): (r: nat)
    requires '@' in uri
    ensures r < |uri| && uri[r] == '@' && IndexOf(uri, '@') <= r
    ensures IndexOf(uri, '@') < LastIndexOf(uri, ':') ==>
      r < LastIndexOf(uri, ':') && forall k :: r < k < LastIndexOf(uri, ':') ==> uri[k] != '@'
    ensures IndexOf(uri, '@') >= LastIndexOf(uri, ':') ==> r == IndexOf(uri, '@')
  {
    var first := IndexOf(uri, '@');
    var lastColon := LastIndexOf(uri, ':');
    if first < lastColon then LastIndexBefore(uri, '@', lastColon) else first
  }

  /**
   * The second half of parseUri, once the user part ends at the '@' at
   * `at`: the credential check, then the host up to the next ':' and the
   * path after it, an empty path read as ".".
   */
  function ParseHost(c: Credentials, uri: string, at: nat): (r: UriParse)
    requires at < |uri| && c.username.Some?
    ensures r.creds.username == c.username && r.creds.password == c.password && r.creds.keyfile == c.keyfile
    ensures r.remotePath.Failure? ==> r.creds.host == c.host
    ensures c.password.None? && c.keyfile.None? ==> r.remotePath == Failure(NoCredentials(c.username.value))
    ensures (c.password.Some? || c.keyfile.Some?) && IndexOfFrom(uri, ':', at + 1) == -1 ==>
      r.remotePath == Failure(NoRemotePath(uri))
    ensures r.remotePath.Success? <==> (c.password.Some? || c.keyfile.Some?) && IndexOfFrom(uri, ':', at + 1) != -1
    ensures r.remotePath.Success? ==>
      && r.creds.host.Some? && ':' !in r.creds.host.value && r.remotePath.value != ""
  {
    if c.password.None? && c.keyfile.None? then
      UriParse(c, Failure(NoCredentials(c.username.value)))
    else
      var indexOfPath := IndexOfFrom(uri, ':', at + 1);
      if indexOfPath == -1 then
        UriParse(c, Failure(NoRemotePath(uri)))
      else
        var hostName := uri[at + 1..indexOfPath];
        assert ':' !in hostName by { NoneBefore(uri, ':', at + 1, indexOfPath); }
        var remotePath := uri[indexOfPath + 1..];
        UriParse(c.(host := Some(hostName)), Success(if remotePath == "" then "." else remotePath))
  }

  /** A slice in which no position holds `x` does not contain `x`. */
  lemma NoneBefore(s: string, x: char, from: nat, to: nat)
    requires from <= to <= |s|
    requires forall k :: from <= k < to ==> s[k] != x
    ensures x !in s[from..to]
  {
  }

  /** The '@' that ends the user part: the chosen one in the password notation, the first one otherwise. */
  function UserEnd(uri: string): (r: nat)
    requires '@' in uri
    ensures r < |uri| && uri[r] == '@'
  {
    if PasswordNotation(uri) then ChosenAt(uri) else IndexOf(uri, '@')
  }

  /** parseUri on the credentials `c`. */
  function ParseUriSpec(c: Credentials, uri: string): (r: UriParse)
    ensures '@' !in uri ==> r == UriParse(c, Failure(NoUsername))
    ensures '@' in uri ==>
      && r.creds.keyfile == c.keyfile && r.creds.username.Some?
      && ':' !in r.creds.username.value && '@' !in r.creds.username.value
    ensures r.remotePath.Failure? ==> r.creds.host == c.host
    ensures '@' in uri && r.creds.password.None? && c.keyfile.None? ==>
      r.remotePath == Failure(NoCredentials(r.creds.username.value))
    ensures '@' in uri && (r.creds.password.Some? || c.keyfile.Some?) && IndexOfFrom(uri, ':', UserEnd(uri) + 1) == -1 ==>
      r.remotePath == Failure(NoRemotePath(uri))
    ensures '@' in uri ==>
      (r.remotePath.Success? <==> (r.creds.password.Some? || c.keyfile.Some?) && IndexOfFrom(uri, ':', UserEnd(uri) + 1) != -1)
    ensures r.remotePath.Success? ==>
      && r.creds.host.Some? && ':' !in r.creds.host.value && r.remotePath.value != ""
  {
    var indexOfAt := IndexOf(uri, '@');
    var indexOfColon := IndexOf(uri, ':');
    if indexOfColon > -1 && indexOfColon < indexOfAt then
      var at := ChosenAt(uri);
      var user := uri[..indexOfColon];
      assert ':' !in user && '@' !in user by {
        NoneBefore(uri, ':', 0, indexOfColon);
        NoneBefore(uri, '@', 0, indexOfColon);
      }
      ParseHost(c.(username := Some(user), password := Some(uri[indexOfColon + 1..at])), uri, at)
    else if indexOfAt > -1 then
      var user := uri[..indexOfAt];
      assert ':' !in user && '@' !in user by {
        NoneBefore(uri, ':', 0, indexOfAt);
        NoneBefore(uri, '@', 0, indexOfAt);
      }
      ParseHost(c.(username := Some(user)), uri, indexOfAt)
    else
      UriParse(c, Failure(NoUsername))
  }

  /** In the password notation, the password is the text between the first ':' and the chosen '@'. */
  lemma ParsePassword(c: Credentials, uri: string)
    requires PasswordNotation(uri)
    ensures '@' in uri
    ensures ParseUriSpec(c, uri).creds.password == Some(uri[IndexOf(uri, ':') + 1..ChosenAt(uri)])
  {
  }

  /**
   * Round trip of the password notation: user, ':', password, '@', host,
   * ':' and the path returned give the URI back, except that an empty path
   * comes back as ".".
   */
  lemma PasswordRoundTrip(c: Credentials, uri: string)
    requires PasswordNotation(uri)
    requires ParseUriSpec(c, uri).remotePath.Success?
    ensures var r := ParseUriSpec(c, uri);
      var prefix := r.creds.username.value + ":" + r.creds.password.value + "@" + r.creds.host.value + ":";
      uri == prefix + r.remotePath.value || (r.remotePath.value == "." && uri == prefix)
  {
    var colon := IndexOf(uri, ':');
    var at := ChosenAt(uri);
    var user := uri[..colon];
    var password := uri[colon + 1..at];
    PasswordBranch(c, uri);
    PasswordSplit(uri);
    HostRoundTrip(c.(username := Some(user), password := Some(password)), uri, at, user + ":" + password + "@");
  }

  /**
   * Round trip of the notation without a password: user, '@', host, ':'
   * and the path returned give the URI back, an empty path coming back as ".".
   */
  lemma UserRoundTrip(c: Credentials, uri: string)
    requires '@' in uri && !PasswordNotation(uri)
    requires ParseUriSpec(c, uri).remotePath.Success?
    ensures var r := ParseUriSpec(c, uri);
      var prefix := r.creds.username.value + "@" + r.creds.host.value + ":";
      r.creds.password == c.password
      && (uri == prefix + r.remotePath.value || (r.remotePath.value == "." && uri == prefix))
  {
    var at := IndexOf(uri, '@');
    var c' := c.(username := Some(uri[..at]));
    assert ParseUriSpec(c, uri) == ParseHost(c', uri, at);
    assert uri == uri[..at] + "@" + uri[at + 1..];
    HostRoundTrip(c', uri, at, uri[..at] + "@");
  }

  /** `s` from `from` on is the text before position i, the character at i, and the rest. */
  lemma Around(s: string, from: nat, i: nat)
    requires from <= i < |s|
    ensures s[from..] == s[from..i] + [s[i]] + s[i + 1..]
  {
  }

  /** In the password notation parseUri goes on from the chosen '@' with the user and password set. */
  lemma PasswordBranch(c: Credentials, uri: string)
    requires PasswordNotation(uri)
    ensures '@' in uri
    ensures var colon := IndexOf(uri, ':');
      var at := ChosenAt(uri);
      ParseUriSpec(c, uri) == ParseHost(c.(username := Some(uri[..colon]), password := Some(uri[colon + 1..at])), uri, at)
  {
  }

  /** The URI in the password notation is user, ':', password, '@' and the rest. */
  lemma PasswordSplit(uri: string)
    requires PasswordNotation(uri)
    ensures '@' in uri
    ensures var colon := IndexOf(uri, ':');
      var at := ChosenAt(uri);
      uri == uri[..colon] + ":" + uri[colon + 1..at] + "@" + uri[at + 1..]
  {
    SplitTwice(uri, IndexOf(uri, ':'), ChosenAt(uri), ':', '@');
  }

  /** `s` cut around the positions i < j, which hold x and y. */
  lemma SplitTwice(s: string, i: nat, j: nat, x: char, y: char)
    requires i < j < |s| && s[i] == x && s[j] == y
    ensures s == s[..i] + [x] + s[i + 1..j] + [y] + s[j + 1..]
  {
    Around(s, 0, i);
    Around(s, i + 1, j);
  }

  /**
   * Once the text up to the '@' at `at` is `front`, a successful second
   * half gives the URI back as the front, the host, ':' and the path.
   */
  lemma HostRoundTrip(c: Credentials, uri: string, at: nat, front: string)
    requires at < |uri| && c.username.Some?
    requires ParseHost(c, uri, at).remotePath.Success?
    requires uri == front + uri[at + 1..]
    ensures var r := ParseHost(c, uri, at);
      uri == front + r.creds.host.value + ":" + r.remotePath.value
      || (r.remotePath.value == "." && uri == front + r.creds.host.value + ":")
  {
    var r := ParseHost(c, uri, at);
    var host := r.creds.host.value;
    HostAndPath(c, uri, at);
    if uri[at + 1..] == host + ":" + r.remotePath.value {
      assert front + (host + ":" + r.remotePath.value) == front + host + ":" + r.remotePath.value;
    } else {
      assert front + (host + ":") == front + host + ":";
    }
  }

  /** With a password or a key file known and a ':' after the '@', the second half succeeds. */
  lemma ParseHostSucceeds(c: Credentials, uri: string, at: nat)
    requires at < |uri| && c.username.Some? && (c.password.Some? || c.keyfile.Some?)
    requires IndexOfFrom(uri, ':', at + 1) != -1
    ensures var path := IndexOfFrom(uri, ':', at + 1);
      var remotePath := uri[path + 1..];
      ParseHost(c, uri, at)
        == UriParse(c.(host := Some(uri[at + 1..path])), Success(if remotePath == "" then "." else remotePath))
  {
  }

  /** A successful second half splits the text after the '@' into host, ':' and path. */
  lemma HostAndPath(c: Credentials, uri: string, at: nat)
    requires at < |uri| && c.username.Some?
    requires ParseHost(c, uri, at).remotePath.Success?
    ensures var r := ParseHost(c, uri, at);
      var rest := uri[at + 1..];
      rest == r.creds.host.value + ":" + r.remotePath.value
      || (r.remotePath.value == "." && rest == r.creds.host.value + ":")
  {
    var path := IndexOfFrom(uri, ':', at + 1);
    assert path != -1;
    Around(uri, at + 1, path);
  }

  /** isRemoteUri: the URI holds an '@'. */
  function IsRemoteUri(uri: string): (r: bool)
    ensures r <==> '@' in uri
  {
    IndexOf(uri, '@') >= 0
  }

  const InvalidUriTail: string := "' is invalid. The 'remoteToDir' attribute must have syntax like the following: user:password@host:/path - the :password part is optional"

  function InvalidUri(kind: string, uri: string): string
  {
    kind + " '" + uri + InvalidUriTail
  }

  /** validateRemoteUri: throws exactly for a URI that is not remote. */
  function ValidateRemoteUri(kind: string, uri: string): (r: Outcome)
    ensures r.Pass? <==> '@' in uri
    ensures r.Fail? ==> r.error == InvalidUri(kind, uri)
  {
    if !IsRemoteUri(uri) then Fail(InvalidUri(kind, uri)) else Pass
  }

  /** The errors of the second half of parseUri are not the missing-user error. */
  lemma ParseHostKeepsUser(c: Credentials, uri: string, at: nat)
    requires at < |uri| && c.username.Some?
    ensures ParseHost(c, uri, at).remotePath != Failure(NoUsername)
  {
    assert NoUsername[1] == 'o' && NoUsername[3] == 'u';
    assert NoCredentials(c.username.value)[1] == NoCredentialsHead[1] == 'e';
    assert NoRemotePath(uri)[3] == NoRemotePathHead[3] == 'r';
  }

  /** Only a URI with an '@' gets past validation, and parsing such a URI always finds a user. */
  lemma ValidatedUriHasUser(c: Credentials, kind: string, uri: string)
    requires ValidateRemoteUri(kind, uri).Pass?
    ensures ParseUriSpec(c, uri).remotePath != Failure(NoUsername)
    ensures ParseUriSpec(c, uri).creds.username.Some?
  {
    var indexOfAt := IndexOf(uri, '@');
    var indexOfColon := IndexOf(uri, ':');
    if indexOfColon > -1 && indexOfColon < indexOfAt {
      ParseHostKeepsUser(c.(username := Some(uri[..indexOfColon]), password := Some(uri[indexOfColon + 1..ChosenAt(uri)])), uri, ChosenAt(uri));
    } else {
      ParseHostKeepsUser(c.(username := Some(uri[..indexOfAt])), uri, indexOfAt);
    }
  }

  /**
   * The loop of parseUri's password notation: from the first '@', moves
   * on to the next '@' for as long as the current one lies before the last
   * ':', and keeps the last one that did.
   */
  method LastAtBeforeLastColon(uri: string, firstAt: nat) returns (indexOfAt: nat)
    requires firstAt == IndexOf(uri, '@')
    ensures indexOfAt == ChosenAt(uri)
  {
    indexOfAt := firstAt;
    var indexOfCurrentAt: int := indexOfAt;
    var indexOfLastColon := LastIndexOf(uri, ':');
    while indexOfCurrentAt > -1 && indexOfCurrentAt < indexOfLastColon
      invariant firstAt <= indexOfAt < |uri| && uri[indexOfAt] == '@'
      invariant indexOfAt == firstAt || indexOfAt < indexOfLastColon
      invariant indexOfCurrentAt == -1 || (indexOfAt <= indexOfCurrentAt < |uri| && uri[indexOfCurrentAt] == '@')
      invariant indexOfCurrentAt == indexOfAt ==> indexOfAt == firstAt
      invariant forall k :: indexOfAt < k < |uri| && (indexOfCurrentAt == -1 || k < indexOfCurrentAt) ==> uri[k] != '@'
      decreases if indexOfCurrentAt == -1 then 0 else |uri| + 1 - indexOfCurrentAt
    {
      indexOfAt := indexOfCurrentAt;
      indexOfCurrentAt := IndexOfFrom(uri, '@', indexOfCurrentAt + 1);
    }
  }

  /** The scp task: the transfer's source and target, and the session credentials it sets. */
  class Scp {
    var fromUri: Option<string>
    var toUri: Option<string>
    var username: Option<string>
    var password: Option<string>
    var host: Option<string>
    var keyfile: Option<string>

    function Creds(): Credentials
      reads this
    {
      Credentials(username, password, host, keyfile)
    }

    /** A new task: every field null. */
    constructor()
      ensures fromUri == None && toUri == None && Creds() == Credentials(None, None, None, None)
    {
      fromUri := None;
      toUri := None;
      username := None;
      password := None;
      host := None;
      keyfile := None;
    }

    /** SSHBase.setKeyfile, which parseUri's credential check reads. */
    method SetKeyfile(file: string)
      modifies this
      ensures keyfile == Some(file) && Creds() == old(Creds()).(keyfile := Some(file))
      ensures fromUri == old(fromUri) && toUri == old(toUri)
    {
      keyfile := Some(file);
    }

    /** setFile: the file to transfer. */
    method SetFile(aFromUri: string)
      modifies this
      ensures fromUri == Some(aFromUri) && toUri == old(toUri) && Creds() == old(Creds())
    {
      fromUri := Some(aFromUri);
    }

    /** setTodir: the target, local or remote, taken without validation. */
    method SetTodir(aToUri: string)
      modifies this
      ensures toUri == Some(aToUri) && fromUri == old(fromUri) && Creds() == old(Creds())
    {
      toUri := Some(aToUri);
    }

    /** setRemoteTofile: the target, set only when it passes validateRemoteUri. */
    method SetRemoteTofile(aToUri: string) returns (r: Outcome)
      modifies this
      ensures r == ValidateRemoteUri("remoteToFile", aToUri)
      ensures r.Pass? ==> toUri == Some(aToUri)
      ensures r.Fail? ==> toUri == old(toUri)
      ensures fromUri == old(fromUri) && Creds() == old(Creds())
    {
      r := ValidateRemoteUri("remoteToFile", aToUri);
      if r.Pass? {
        toUri := Some(aToUri);
      }
    }

    /** init: forgets the source and the target. */
    method Init()
      modifies this
      ensures toUri == None && fromUri == None && Creds() == old(Creds())
    {
      toUri := None;
      fromUri := None;
    }

    /**
     * parseUri: sets the user name (and the password in the password
     * notation), checks that a password or a key file is known, sets the
     * host and returns the remote path; an error is returned where the Java
     * code throws, with the fields set up to that point kept.
     */
    method ParseUri(uri: string) returns (r: Result<string>)
      modifies this
      ensures ParseUriSpec(old(Creds()), uri) == UriParse(Creds(), r)
      ensures fromUri == old(fromUri) && toUri == old(toUri)
    {
      ghost var c := Creds();
      var indexOfAt := IndexOf(uri, '@');
      var indexOfColon := IndexOf(uri, ':');
      if indexOfColon > -1 && indexOfColon < indexOfAt {
        indexOfAt := LastAtBeforeLastColon(uri, indexOfAt);
        username := Some(uri[..indexOfColon]);
        password := Some(uri[indexOfColon + 1..indexOfAt]);
      } else if indexOfAt > -1 {
        username := Some(uri[..indexOfAt]);
      } else {
        return Failure(NoUsername);
      }
      assert 0 <= indexOfAt < |uri|;
      assert ParseUriSpec(c, uri) == ParseHost(Creds(), uri, indexOfAt);
      r := ParseHostPart(uri, indexOfAt);
    }

    /**
     * The rest of parseUri once the user part ends at `indexOfAt`: the
     * credential check, the host and the remote path.
     */
    method ParseHostPart(uri: string, indexOfAt: nat) returns (r: Result<string>)
      requires indexOfAt < |uri| && username.Some?
      modifies this
      ensures ParseHost(old(Creds()), uri, indexOfAt) == UriParse(Creds(), r)
      ensures fromUri == old(fromUri) && toUri == old(toUri)
    {
      if password.None? && keyfile.None? {
        return Failure(NoCredentials(username.value));
      }
      r := ParseHostName(uri, indexOfAt);
    }

    /** Past the credential check: the host up to the next ':' and the path after it. */
    method ParseHostName(uri: string, indexOfAt: nat) returns (r: Result<string>)
      requires indexOfAt < |uri| && username.Some? && (password.Some? || keyfile.Some?)
      modifies this
      ensures ParseHost(old(Creds()), uri, indexOfAt) == UriParse(Creds(), r)
      ensures fromUri == old(fromUri) && toUri == old(toUri)
    {
      ghost var c := Creds();
      var indexOfPath := IndexOfFrom(uri, ':', indexOfAt + 1);
      if indexOfPath == -1 {
        return Failure(NoRemotePath(uri));
      }
      var hostName := uri[indexOfAt + 1..indexOfPath];
      host := Some(hostName);
      var remotePath := uri[indexOfPath + 1..];
      if remotePath == "" {
        remotePath := ".";
      }
      r := Success(remotePath);
      ParseHostSucceeds(c, uri, indexOfAt);
      assert Creds() == c.(host := Some(hostName));
    }
  }
}
