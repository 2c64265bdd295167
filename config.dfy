/** The configuration the client keeps in memory (`MailConfig.data`) and
    the password wrapper around Fernet. Reading and writing the JSON file,
    key-file handling and Fernet itself are not modelled: `encrypt` and
    `decrypt` stand for Fernet under the stored key, `decrypt` yielding
    `None` where Fernet raises. */
module Config {
  import opened Text

  /** A JSON value as the configuration holds it. */
  datatype Value = Str(s: string) | Int(i: int) | Bool(b: bool) | Obj(fields: map<string, Value>)

  /** Python truthiness of a configuration value; a missing key reads as `None`, which is false. */
  predicate Truthy(v: Value) {
    match v
    case Str(s) => s != ""
    case Int(i) => i != 0
    case Bool(b) => b
    case Obj(fields) => |fields| != 0
  }

  class MailConfig {
    var data: map<string, Value>

    constructor (initial: map<string, Value>)
      ensures data == initial
    {
      data := initial;
    }

    /** `config.get(key, default)`. */
    function Get(key: string, default: Value): (v: Value)
      reads this
      ensures key in data ==> v == data[key]
      ensures key !in data ==> v == default
    {
      if key in data then data[key] else default
    }

    /** `config.set(key, value)`: that key changes, no other. */
    method Set(key: string, value: Value)
      modifies this
      ensures data == old(data)[key := value]
      ensures Get(key, value) == value
      ensures forall k :: k != key ==> (k in data <==> k in old(data)) && (k in data ==> data[k] == old(data)[k])
    {
      data := data[key := value];
    }
  }

  /** `_encrypt_password`: the empty password stays empty. */
  function EncryptPassword(password: string, encrypt: string -> string): (r: string)
    ensures password == "" ==> r == ""
    ensures password != "" ==> r == encrypt(password)
  {
    if password == "" then "" else encrypt(password)
  }

  /** `_decrypt_password`: the empty string stays empty, and a value Fernet
      cannot decrypt is taken as a plain-text password. */
  function DecryptPassword(stored: string, decrypt: string -> Option<string>): (r: string)
    ensures stored == "" ==> r == ""
    ensures stored != "" && decrypt(stored).None? ==> r == stored
    ensures stored != "" && decrypt(stored).Some? ==> r == decrypt(stored).value
  {
    if stored == "" then "" else match decrypt(stored) case None => stored case Some(p) => p
  }

  /** Where Fernet decrypts what it encrypted, a stored password reads back
      as itself; a legacy plain-text password reads back unchanged. */
  lemma PasswordRoundTrip(password: string, encrypt: string -> string, decrypt: string -> Option<string>)
    requires password != "" ==> encrypt(password) != "" && decrypt(encrypt(password)) == Some(password)
    ensures DecryptPassword(EncryptPassword(password, encrypt), decrypt) == password
  {
  }
}
