/** The connector's configuration record (config.py). */
module Config {

  /** Default IMAP port: IMAP over TLS. */
  const DefaultImapPort := 993
  /** Default poll interval, in seconds. */
  const DefaultPollInterval := 30

  /** One configuration as posted to /configure; immutable once built. */
  datatype Config = Config(
    imapHost: string,
    emailUser: string,
    emailPass: string,
    telegramBotToken: string,
    telegramChatId: string,
    imapPort: int := DefaultImapPort,
    pollInterval: int := DefaultPollInterval)
}
