/** The values the userscript keeps in the userscript manager's key-value
    store (`GM_getValue` / `GM_setValue`): the configuration object under
    `deepseek_config`, the processed tweet IDs under `translatedTweets`, and
    one `translation_<id>` entry per cached translation. */
module Store {
  import opened Wrappers
  import opened JsString
  import CryptoUtils
  import Base64

  /** The object saved under `deepseek_config`; each property is present or
      absent (absent everywhere until the first save). */
  datatype SavedConfig = SavedConfig(
    encryptionKey: Option<Str>,
    encryptedApiKey: Option<Str>,
    prompt: Option<Str>,
    autoTranslate: Option<bool>,
    showLoading: Option<bool>,
    theme: Option<Str>)

  /** A configuration with every property set, as `getConfig()` returns it. */
  datatype Config = Config(
    encryptionKey: Str,
    encryptedApiKey: Str,
    prompt: Str,
    autoTranslate: bool,
    showLoading: bool,
    theme: Str)

  const NothingSaved := SavedConfig(None, None, None, None, None, None)

  const DefaultPrompt: Str := Lit("你是一个专业的翻译助手。请将以下推文翻译成中文，保持原文的风格和情感，同时确保翻译自然流畅。\n\n翻译要求：\n1. 准确传达原文意思\n2. 保持推文的简洁性\n3. 适当处理网络用语和表情符号\n4. 如果是疑问句，保持疑问语气\n5. 保留标签和@提及\n\n请直接返回翻译结果，不要添加任何额外说明。")

  /** `DEFAULT_CONFIG`. */
  const DefaultConfig := Config([], [], DefaultPrompt, true, true, Lit("auto"))

  const KeyLengthMessage: Str := Lit("加密密钥必须为8-32位字符")
  const EncryptionFailedMessage: Str := Lit("加密失败")
  const MissingApiKeyInputMessage: Str := Lit("请输入API密钥")

  /** `getConfig()`: `{ ...DEFAULT_CONFIG, ...savedConfig }`. */
  function GetConfig(saved: SavedConfig): Config
  {
    Config(
      saved.encryptionKey.GetOr(DefaultConfig.encryptionKey),
      saved.encryptedApiKey.GetOr(DefaultConfig.encryptedApiKey),
      saved.prompt.GetOr(DefaultConfig.prompt),
      saved.autoTranslate.GetOr(DefaultConfig.autoTranslate),
      saved.showLoading.GetOr(DefaultConfig.showLoading),
      saved.theme.GetOr(DefaultConfig.theme))
  }

  /** A complete configuration object as it is saved. */
  function AsSaved(c: Config): SavedConfig
  {
    SavedConfig(Some(c.encryptionKey), Some(c.encryptedApiKey), Some(c.prompt),
                Some(c.autoTranslate), Some(c.showLoading), Some(c.theme))
  }

  /** Every saved property wins over its default, every absent one reads as
      the default; saving a whole configuration reads it back unchanged. */
  lemma GetConfigMerges(saved: SavedConfig, c: Config)
    ensures saved.encryptionKey.Some? ==> GetConfig(saved).encryptionKey == saved.encryptionKey.value
    ensures saved.encryptionKey.None? ==> GetConfig(saved).encryptionKey == []
    ensures saved.encryptedApiKey.Some? ==> GetConfig(saved).encryptedApiKey == saved.encryptedApiKey.value
    ensures saved.encryptedApiKey.None? ==> GetConfig(saved).encryptedApiKey == []
    ensures saved.prompt.Some? ==> GetConfig(saved).prompt == saved.prompt.value
    ensures saved.prompt.None? ==> GetConfig(saved).prompt == DefaultPrompt
    ensures saved.autoTranslate.Some? ==> GetConfig(saved).autoTranslate == saved.autoTranslate.value
    ensures saved.autoTranslate.None? ==> GetConfig(saved).autoTranslate
    ensures saved.showLoading.Some? ==> GetConfig(saved).showLoading == saved.showLoading.value
    ensures saved.showLoading.None? ==> GetConfig(saved).showLoading
    ensures saved.theme.Some? ==> GetConfig(saved).theme == saved.theme.value
    ensures saved.theme.None? ==> GetConfig(saved).theme == Lit("auto")
    ensures GetConfig(NothingSaved) == DefaultConfig
    ensures GetConfig(AsSaved(c)) == c
  {
  }

  /** `getDecryptedApiKey()`: empty when either stored field is empty or
      decryption fails. */
  function DecryptedApiKey(saved: SavedConfig): Str
  {
    var config := GetConfig(saved);
    if config.encryptedApiKey == [] || config.encryptionKey == [] then []
    else CryptoUtils.Decryption(config.encryptedApiKey, config.encryptionKey).GetOr([])
  }

  /** What `encryptAndSaveApiKey(apiKey, encryptionKey)` leaves under
      `deepseek_config`, or the message of the error it throws before
      writing anything; `salt` is the salt `encrypt` draws. */
  function KeySaved(saved: SavedConfig, apiKey: Str, encryptionKey: Str, salt: Str): Result<SavedConfig, Str>
  {
    if !CryptoUtils.ValidateEncryptionKey(encryptionKey) then Err(KeyLengthMessage)
    else
      match CryptoUtils.Encryption(apiKey, encryptionKey, salt)
      case None => Err(EncryptionFailedMessage)
      case Some(encrypted) =>
        Ok(AsSaved(GetConfig(saved).(encryptedApiKey := encrypted, encryptionKey := encryptionKey)))
  }

  /** `encryptAndSaveApiKey` succeeds exactly for a valid encryption key and
      a binary API key, and then `getDecryptedApiKey()` returns the API key
      while the other settings keep their values. */
  lemma KeySavedReadsBack(saved: SavedConfig, apiKey: Str, encryptionKey: Str, salt: Str)
    requires CryptoUtils.IsSalt(salt)
    ensures KeySaved(saved, apiKey, encryptionKey, salt).Ok?
            <==> CryptoUtils.ValidateEncryptionKey(encryptionKey) && Base64.IsBinary(apiKey)
    ensures KeySaved(saved, apiKey, encryptionKey, salt).Ok? ==>
      var after := KeySaved(saved, apiKey, encryptionKey, salt).value;
      DecryptedApiKey(after) == apiKey &&
      GetConfig(after).encryptionKey == encryptionKey &&
      GetConfig(after).prompt == GetConfig(saved).prompt &&
      GetConfig(after).autoTranslate == GetConfig(saved).autoTranslate &&
      GetConfig(after).showLoading == GetConfig(saved).showLoading &&
      GetConfig(after).theme == GetConfig(saved).theme
  {
    CryptoUtils.EncryptionFailsOnWideUnits(apiKey, encryptionKey, salt);
    if CryptoUtils.ValidateEncryptionKey(encryptionKey) && Base64.IsBinary(apiKey) {
      CryptoUtils.DecryptionInvertsEncryption(apiKey, encryptionKey, salt);
    }
  }

  /** The fields of the configuration panel when "save" is clicked. */
  datatype PanelForm = PanelForm(
    apiKey: Str,
    encryptionKey: Str,
    prompt: Str,
    autoTranslate: bool,
    showLoading: bool,
    theme: Str)

  /** The save button's handler: `shown` is the configuration read when the
      panel was built. The object finally saved holds the panel's fields and
      `ENCRYPTION_KEY`, but no `ENCRYPTED_API_KEY`. */
  function PanelSaved(saved: SavedConfig, shown: Config, form: PanelForm, salt: Str): Result<SavedConfig, Str>
  {
    var newConfig := SavedConfig(Some(form.encryptionKey), None, Some(form.prompt),
                                 Some(form.autoTranslate), Some(form.showLoading), Some(form.theme));
    if form.apiKey != [] || form.encryptionKey != shown.encryptionKey then
      if !CryptoUtils.ValidateEncryptionKey(form.encryptionKey) then Err(KeyLengthMessage)
      else
        var apiKeyToSave := if form.apiKey != [] then form.apiKey else DecryptedApiKey(saved);
        if apiKeyToSave == [] then Err(MissingApiKeyInputMessage)
        else
          match KeySaved(saved, apiKeyToSave, form.encryptionKey, salt)
          case Err(e) => Err(e)
          case Ok(_) => Ok(newConfig)
    else Ok(newConfig)
  }

  /** As written, every successful save leaves no API key behind, whether
      it changed only the prompt, the theme or a checkbox, or encrypted a
      freshly entered key: the final, wholesale save drops the ciphertext.
      In particular a save with a new binary API key and a valid encryption
      key does succeed, and still forgets that key. */
  lemma PanelSaveForgetsApiKey(saved: SavedConfig, shown: Config, form: PanelForm, salt: Str)
    ensures PanelSaved(saved, shown, form, salt).Ok? ==>
      DecryptedApiKey(PanelSaved(saved, shown, form, salt).value) == []
    ensures CryptoUtils.IsSalt(salt) && form.apiKey != [] && Base64.IsBinary(form.apiKey) &&
            CryptoUtils.ValidateEncryptionKey(form.encryptionKey) ==>
      PanelSaved(saved, shown, form, salt).Ok?
  {
    var r := PanelSaved(saved, shown, form, salt);
    if r.Ok? {
      assert r.value.encryptedApiKey.None?;
      assert GetConfig(r.value).encryptedApiKey == [];
    }
    if CryptoUtils.IsSalt(salt) && form.apiKey != [] && Base64.IsBinary(form.apiKey) &&
       CryptoUtils.ValidateEncryptionKey(form.encryptionKey) {
      KeySavedReadsBack(saved, form.apiKey, form.encryptionKey, salt);
    }
  }

  /** The save handler as evidently intended: the object saved last carries
      the ciphertext that `encryptAndSaveApiKey` stored, or the stored one
      when no new key was encrypted. */
  function PanelSavedKeepingKey(saved: SavedConfig, shown: Config, form: PanelForm, salt: Str): Result<SavedConfig, Str>
  {
    var newConfig := SavedConfig(Some(form.encryptionKey), Some(GetConfig(saved).encryptedApiKey), Some(form.prompt),
                                 Some(form.autoTranslate), Some(form.showLoading), Some(form.theme));
    if form.apiKey != [] || form.encryptionKey != shown.encryptionKey then
      if !CryptoUtils.ValidateEncryptionKey(form.encryptionKey) then Err(KeyLengthMessage)
      else
        var apiKeyToSave := if form.apiKey != [] then form.apiKey else DecryptedApiKey(saved);
        if apiKeyToSave == [] then Err(MissingApiKeyInputMessage)
        else
          match KeySaved(saved, apiKeyToSave, form.encryptionKey, salt)
          case Err(e) => Err(e)
          case Ok(written) => Ok(newConfig.(encryptedApiKey := Some(GetConfig(written).encryptedApiKey)))
    else Ok(newConfig)
  }

  /** With the correction, a successful save keeps the API key readable: the
      one just entered, or else the one stored before (re-encrypted under a
      changed encryption key, or untouched). */
  lemma PanelSaveKeepsApiKey(saved: SavedConfig, shown: Config, form: PanelForm, salt: Str)
    requires CryptoUtils.IsSalt(salt)
    requires shown == GetConfig(saved)
    requires PanelSavedKeepingKey(saved, shown, form, salt).Ok?
    ensures var after := PanelSavedKeepingKey(saved, shown, form, salt).value;
      DecryptedApiKey(after) == (if form.apiKey != [] then form.apiKey else DecryptedApiKey(saved))
  {
    var after := PanelSavedKeepingKey(saved, shown, form, salt).value;
    if form.apiKey != [] || form.encryptionKey != shown.encryptionKey {
      var apiKeyToSave := if form.apiKey != [] then form.apiKey else DecryptedApiKey(saved);
      KeySavedReadsBack(saved, apiKeyToSave, form.encryptionKey, salt);
      var written := KeySaved(saved, apiKeyToSave, form.encryptionKey, salt).value;
      assert GetConfig(after).encryptedApiKey == GetConfig(written).encryptedApiKey;
      assert GetConfig(after).encryptionKey == GetConfig(written).encryptionKey;
    } else {
      assert GetConfig(after).encryptedApiKey == GetConfig(saved).encryptedApiKey;
      assert GetConfig(after).encryptionKey == GetConfig(saved).encryptionKey;
    }
  }

  predicate NoDuplicates(ids: seq<Str>)
  {
    forall i, j | 0 <= i < j < |ids| :: ids[i] != ids[j]
  }

  /** `[...new Set(ids)]`: the first occurrence of each ID, in order. */
  function Dedup(ids: seq<Str>): (r: seq<Str>)
    ensures NoDuplicates(r)
    ensures forall x :: x in r <==> x in ids
  {
    if ids == [] then []
    else
      var d := Dedup(ids[..|ids| - 1]);
      var last := ids[|ids| - 1];
      if last in d then d else d + [last]
  }

  /** The string stored under `translatedTweets`: the JSON array written by
      `saveTranslatedTweet`, or anything that does not parse to an array
      (the default and reset value `'{}'`, or an unparsable string). */
  datatype StoredIds = IdArray(ids: seq<Str>) | NotAnArray

  /** `getTranslatedTweets()`, in insertion order: `new Set(JSON.parse(stored))`,
      where `'{}'` makes `new Set` throw and the catch returns an empty set. */
  function ReadIds(stored: StoredIds): seq<Str>
  {
    match stored
    case IdArray(ids) => Dedup(ids)
    case NotAnArray => []
  }

  /** What `saveTranslatedTweet(id)` writes. */
  function IdsWith(stored: StoredIds, id: Str): StoredIds
  {
    var ids := ReadIds(stored);
    IdArray(if id in ids then ids else ids + [id])
  }

  lemma {:induction false} DedupOfDistinct(ids: seq<Str>)
    requires NoDuplicates(ids)
    ensures Dedup(ids) == ids
  {
    if ids != [] {
      DedupOfDistinct(ids[..|ids| - 1]);
    }
  }

  /** `saveTranslatedTweet` appends a new ID at the end of the stored list,
      leaves a known one where it is, and never creates a duplicate. */
  lemma SaveAppendsOnce(stored: StoredIds, id: Str)
    ensures ReadIds(IdsWith(stored, id)) == ReadIds(stored) + (if id in ReadIds(stored) then [] else [id])
    ensures NoDuplicates(ReadIds(IdsWith(stored, id)))
  {
    var ids := ReadIds(stored);
    var next := if id in ids then ids else ids + [id];
    assert NoDuplicates(next);
    DedupOfDistinct(next);
  }

  /** Saving the same ID twice is saving it once. */
  lemma SaveIdempotent(stored: StoredIds, id: Str)
    ensures IdsWith(IdsWith(stored, id), id) == IdsWith(stored, id)
  {
    SaveAppendsOnce(stored, id);
  }

  /** The processed set only grows: every ID read before a save is read
      after it, and the saved ID is read too. */
  lemma SaveGrows(stored: StoredIds, id: Str)
    ensures var after := ReadIds(IdsWith(stored, id));
      id in after && forall x | x in ReadIds(stored) :: x in after
  {
    SaveAppendsOnce(stored, id);
  }

  /** Everything in the store that the core reads or writes. */
  datatype Gm = Gm(config: SavedConfig, translatedTweets: StoredIds, records: map<Str, Str>)

  /** `isTweetTranslated(id)`: the ID is in the processed set. */
  predicate IsProcessed(gm: Gm, id: Str)
  {
    id in ReadIds(gm.translatedTweets)
  }

  /** `GM_getValue('translation_' + id)`: the cached translation, if any. */
  function Translation(gm: Gm, id: Str): Option<Str>
  {
    if id in gm.records then Some(gm.records[id]) else None
  }

  /** `clearTranslationCache()`: `translatedTweets` is reset to `'{}'`
      first; the `translation_` entries are deleted only when listing and
      deleting values is available, otherwise the call throws after the
      reset. */
  function Cleared(gm: Gm, deletionAvailable: bool): Gm
  {
    gm.(translatedTweets := NotAnArray, records := if deletionAvailable then map[] else gm.records)
  }

  /** After a clear no ID is processed; the cached translations are gone
      only when deletion worked, so a failed deletion leaves translations
      for IDs that are no longer processed. */
  lemma ClearResetsProcessed(gm: Gm, deletionAvailable: bool, id: Str)
    ensures ReadIds(Cleared(gm, deletionAvailable).translatedTweets) == []
    ensures !IsProcessed(Cleared(gm, deletionAvailable), id)
    ensures deletionAvailable ==> Cleared(gm, deletionAvailable).records == map[]
    ensures !deletionAvailable ==> Cleared(gm, deletionAvailable).records == gm.records
  {
  }

  /** The store as a mutable object: the three stored values are its fields. */
  class Storage {
    var config: SavedConfig
    var translatedTweets: StoredIds
    var records: map<Str, Str>

    function State(): Gm
      reads this
    {
      Gm(config, translatedTweets, records)
    }

    /** A store in which nothing has been saved yet. */
    constructor ()
      ensures State() == Gm(NothingSaved, NotAnArray, map[])
    {
      config := NothingSaved;
      translatedTweets := NotAnArray;
      records := map[];
    }

    /** `getConfig()`. */
    function Configuration(): Config
      reads this
    {
      GetConfig(config)
    }

    /** `saveConfig(config)`: the saved object is replaced as a whole. */
    method SaveConfig(c: SavedConfig)
      modifies this
      ensures State() == old(State()).(config := c)
    {
      config := c;
    }

    /** `getDecryptedApiKey()`. */
    method GetDecryptedApiKey() returns (key: Str)
      ensures key == DecryptedApiKey(config)
    {
      var c := Configuration();
      if c.encryptedApiKey == [] || c.encryptionKey == [] {
        return [];
      }
      var decrypted := CryptoUtils.Decrypt(c.encryptedApiKey, c.encryptionKey);
      key := decrypted.GetOr([]);
    }

    /** `encryptAndSaveApiKey(apiKey, encryptionKey)`; `picks` are the random
        draws of the salt. Err carries the message thrown, in which case
        nothing was written. */
    method EncryptAndSaveApiKey(apiKey: Str, encryptionKey: Str, picks: seq<int>) returns (r: Result<bool, Str>)
      requires |picks| == CryptoUtils.SaltLength
      requires forall i | 0 <= i < |picks| :: 0 <= picks[i] < 62
      modifies this
      ensures var expected := KeySaved(old(config), apiKey, encryptionKey, CryptoUtils.SaltOf(picks));
        match expected
        case Ok(c) => r == Ok(true) && State() == old(State()).(config := c)
        case Err(e) => r == Err(e) && State() == old(State())
    {
      if !CryptoUtils.ValidateEncryptionKey(encryptionKey) {
        return Err(KeyLengthMessage);
      }
      var encrypted := CryptoUtils.Encrypt(apiKey, encryptionKey, picks);
      if encrypted.None? {
        return Err(EncryptionFailedMessage);
      }
      var c := Configuration();
      c := c.(encryptedApiKey := encrypted.value, encryptionKey := encryptionKey);
      SaveConfig(AsSaved(c));
      r := Ok(true);
    }

    /** The save button's handler, as written. */
    method SavePanel(shown: Config, form: PanelForm, picks: seq<int>) returns (r: Result<bool, Str>)
      requires |picks| == CryptoUtils.SaltLength
      requires forall i | 0 <= i < |picks| :: 0 <= picks[i] < 62
      modifies this
      ensures var expected := PanelSaved(old(config), shown, form, CryptoUtils.SaltOf(picks));
        match expected
        case Ok(c) => r == Ok(true) && State() == old(State()).(config := c)
        case Err(e) => r == Err(e) && State() == old(State())
    {
      var newConfig := SavedConfig(None, None, Some(form.prompt), Some(form.autoTranslate),
                                   Some(form.showLoading), Some(form.theme));
      if form.apiKey != [] || form.encryptionKey != shown.encryptionKey {
        if !CryptoUtils.ValidateEncryptionKey(form.encryptionKey) {
          return Err(KeyLengthMessage);
        }
        var apiKeyToSave := form.apiKey;
        if apiKeyToSave == [] {
          apiKeyToSave := GetDecryptedApiKey();
        }
        if apiKeyToSave == [] {
          return Err(MissingApiKeyInputMessage);
        }
        var saved := EncryptAndSaveApiKey(apiKeyToSave, form.encryptionKey, picks);
        if saved.Err? {
          return Err(saved.error);
        }
      }
      newConfig := newConfig.(encryptionKey := Some(form.encryptionKey));
      SaveConfig(newConfig);
      r := Ok(true);
    }

    /** `getTranslatedTweets()`: a set, so no ID occurs twice. */
    function GetTranslatedTweets(): (ids: seq<Str>)
      reads this
      ensures NoDuplicates(ids)
    {
      ReadIds(translatedTweets)
    }

    /** `isTweetTranslated(id)`: `getTranslatedTweets().has(id)`. */
    function IsTweetTranslated(id: Str): (translated: bool)
      reads this
      ensures translated <==> id in GetTranslatedTweets()
    {
      IsProcessed(State(), id)
    }

    /** `saveTranslatedTweet(id)`. */
    method SaveTranslatedTweet(id: Str)
      modifies this
      ensures State() == old(State()).(translatedTweets := IdsWith(old(translatedTweets), id))
    {
      var ids := GetTranslatedTweets();
      if id !in ids {
        ids := ids + [id];
      }
      translatedTweets := IdArray(ids);
    }

    /** `GM_getValue('translation_' + id)`. */
    function CachedTranslation(id: Str): Option<Str>
      reads this
    {
      Translation(State(), id)
    }

    /** `GM_setValue('translation_' + id, text)`. */
    method SaveTranslation(id: Str, text: Str)
      modifies this
      ensures State() == old(State()).(records := old(records)[id := text])
    {
      records := records[id := text];
    }

    /** `clearTranslationCache()`; `ok` is false when it threw after resetting
        the processed set. */
    method ClearTranslationCache(deletionAvailable: bool) returns (ok: bool)
      modifies this
      ensures ok == deletionAvailable
      ensures State() == Cleared(old(State()), deletionAvailable)
    {
      translatedTweets := NotAnArray;
      if !deletionAvailable {
        return false;
      }
      var keys := records.Keys;
      while keys != {}
        invariant records.Keys == keys
        invariant config == old(config) && translatedTweets == NotAnArray
        decreases keys
      {
        var k :| k in keys;
        records := map x | x in records && x != k :: records[x];
        keys := keys - {k};
      }
      assert records == map[] by {
        assert records.Keys == {};
      }
      ok := true;
    }
  }
}
