/** The parts of net/http and of a browser's cookie store that the gateway's promises rest on. */
module Http {
  import opened Wrappers
  import opened Session

  /** A cookie value: plain text, or a session sealed into a token. */
  datatype CookieValue = Text(text: string) | Token(session: SessionData)

  datatype SetCookie = SetCookie(name: string, value: CookieValue, maxAge: int)

  /** A response under construction. Headers are committed by the first status written; a cookie
      added after that is dropped. */
  class ResponseWriter {
    var cookies: seq<SetCookie>
    var expiresIn: Option<int>
    var status: Option<int>
    var location: Option<string>

    constructor ()
      ensures Fresh()
    {
      cookies, expiresIn, status, location := [], None, None, None;
    }

    predicate Fresh()
      reads this
    {
      cookies == [] && expiresIn == None && status == None && location == None
    }

    method SetCookie(cookie: SetCookie)
      modifies this`cookies
      ensures cookies == if status == None then old(cookies) + [cookie] else old(cookies)
    {
      if status == None {
        cookies := cookies + [cookie];
      }
    }

    method SetExpiresIn(seconds: int)
      modifies this`expiresIn
      ensures expiresIn == if status == None then Some(seconds) else old(expiresIn)
    {
      if status == None {
        expiresIn := Some(seconds);
      }
    }

    method WriteHeader(code: int)
      modifies this`status
      ensures status == if old(status) == None then Some(code) else old(status)
    {
      if status == None {
        status := Some(code);
      }
    }

    method Redirect(url: string, code: int)
      modifies this`status, this`location
      ensures old(status) == None ==> status == Some(code) && location == Some(url)
      ensures old(status) != None ==> status == old(status) && location == old(location)
    {
      if status == None {
        location := Some(url);
        status := Some(code);
      }
    }
  }

  /** A cookie a browser holds, with the time from which it is expired, if it carries one. */
  datatype Held<+V> = Held(value: V, dropAfter: Option<Time>)

  /** What a browser keeps of a Set-Cookie: a negative Max-Age deletes, and Go leaves the attribute out
      when Max-Age is zero, which makes the cookie outlive every deadline (RFC 6265, section 5.2.2). */
  function Keep<V>(value: V, maxAge: int, now: Time): Option<Held<V>> {
    if maxAge < 0 then None
    else if maxAge == 0 then Some(Held(value, None))
    else Some(Held(value, Some(now + maxAge * SECOND)))
  }

  /** What a browser sends: a cookie whose expiry is not in the past. */
  function Sent<V>(slot: Option<Held<V>>, now: Time): Option<V> {
    match slot
    case Some(Held(value, None)) => Some(value)
    case Some(Held(value, Some(limit))) => if now <= limit then Some(value) else None
    case None => None
  }

  type Jar = map<string, Held<CookieValue>>

  function Receive(jar: Jar, cookie: SetCookie, now: Time): Jar {
    match Keep(cookie.value, cookie.maxAge, now)
    case Some(held) => jar[cookie.name := held]
    case None => jar - {cookie.name}
  }

  /** A response's cookies take effect in the order they were added. */
  function ReceiveAll(jar: Jar, cookies: seq<SetCookie>, now: Time): Jar
    decreases |cookies|
  {
    if cookies == [] then jar
    else ReceiveAll(Receive(jar, cookies[0], now), cookies[1..], now)
  }

  function CookieOf(jar: Jar, name: string, now: Time): Option<CookieValue> {
    Sent(if name in jar then Some(jar[name]) else None, now)
  }
}
